/** Building the replacement file of Apply out of reused and fetched blocks
    (internal/store/apply.go:140-177). */
module Assembly {
  import opened Model
  import opened Layout

  /** What the peer answers to the request for each block of the entry, by block number. Nothing
      relates one answer to the next: the source may change between requests. */
  type Replies = nat -> Option<Bytes>

  /** The temporary file under construction with its byte counts. */
  datatype Build = Build(data: Bytes, received: int, reused: int)

  const NOTHING: Build := Build("", 0, 0)

  /** The blocks of the old file by hash; a later block replaces an earlier one. */
  function BlockMap(bs: seq<Block>): (m: map<Digest, Block>)
    ensures forall d :: d in m ==> m[d] in bs && m[d].hash == d
    ensures forall i :: 0 <= i < |bs| ==> bs[i].hash in m
  {
    if bs == [] then map[]
    else BlockMap(bs[..|bs| - 1])[bs[|bs| - 1].hash := bs[|bs| - 1]]
  }

  /** Whether the loop tries the old file for block b. */
  predicate Candidate(m: map<Digest, Block>, b: Block) {
    b.hash in m && m[b.hash].size == b.size
  }

  /** The bytes of a block's place in the old file, while the file is long enough. */
  function BytesAt(c: Bytes, o: Block): Option<Bytes> {
    if 0 <= o.offset <= o.offset + o.size <= |c| then Some(c[o.offset .. o.offset + o.size]) else None
  }

  /** What the old file holds where block b is expected; the mapped block has the size of b. */
  function ReadOld(old': Option<Bytes>, m: map<Digest, Block>, b: Block): Option<Bytes> {
    if old'.Some? && Candidate(m, b) then BytesAt(old'.value, m[b.hash]) else None
  }

  predicate Matches(h: Hasher, data: Option<Bytes>, b: Block) {
    data.Some? && |data.value| == b.size && h(data.value) == b.hash
  }

  /** One turn of the loop: a verified local read, or else a verified reply. */
  function AddBlock(h: Hasher, a: Build, b: Block, read: Option<Bytes>, reply: Option<Bytes>): Result<Build, Error> {
    if Matches(h, read, b) then Ok(Build(a.data + read.value, a.received, a.reused + b.size))
    else if reply.None? then Err(FetchFailed)
    else if !Matches(h, reply, b) then Err(Corrupt)
    else Ok(Build(a.data + reply.value, a.received + b.size, a.reused))
  }

  /** When a turn fails: nothing local can be used, and the peer has no answer, or a wrong one. */
  lemma TurnFails(h: Hasher, a: Build, b: Block, read: Option<Bytes>, reply: Option<Bytes>)
    ensures var r := AddBlock(h, a, b, read, reply);
            var usable := read.Some? && |read.value| == b.size && h(read.value) == b.hash;
            && (r == Err(FetchFailed) <==> !usable && reply.None?)
            && (r == Err(Corrupt) <==> !usable && reply.Some? && (|reply.value| != b.size || h(reply.value) != b.hash))
            && (r.Err? ==> r.error == FetchFailed || r.error == Corrupt)
  {}

  /** The first k turns of the loop, with an old file that stays as it is. */
  function Assemble(h: Hasher, blocks: seq<Block>, old': Option<Bytes>, m: map<Digest, Block>,
                    fetch: Replies, k: nat): Result<Build, Error>
    requires k <= |blocks|
  {
    if k == 0 then Ok(NOTHING)
    else
      var a := Assemble(h, blocks, old', m, fetch, k - 1);
      if a.Err? then a
      else AddBlock(h, a.value, blocks[k - 1], ReadOld(old', m, blocks[k - 1]), fetch(k - 1))
  }

  /** The part of a partial file that holds its first k blocks is exactly what was announced. */
  ghost predicate Faithful(h: Hasher, blocks: seq<Block>, size: int, data: Bytes, k: nat) {
    && k <= |blocks| && |blocks| == BlockCount(size)
    && |data| == Min(k * BLOCK_SIZE, size)
    && forall i: nat :: i < k ==> |Slice(data, i)| == blocks[i].size && h(Slice(data, i)) == blocks[i].hash
  }

  /** Whatever the old file and the peer deliver, a turn that succeeds extends the faithful part. */
  lemma AddBlockFaithful(h: Hasher, blocks: seq<Block>, size: int, a: Build, k: nat,
                         read: Option<Bytes>, reply: Option<Bytes>)
    requires size >= 0 && ValidLayout(blocks, size) && k < |blocks|
    requires Faithful(h, blocks, size, a.data, k) && a.received + a.reused == |a.data|
    ensures var r := AddBlock(h, a, blocks[k], read, reply);
            r.Ok? ==> Faithful(h, blocks, size, r.value.data, k + 1)
                      && r.value.received + r.value.reused == |r.value.data|
  {
    var r := AddBlock(h, a, blocks[k], read, reply);
    if r.Ok? {
      assert BlockAt(blocks[k], k, size);
      var data' := r.value.data;
      var piece := if Matches(h, read, blocks[k]) then read.value else reply.value;
      assert data' == a.data + piece && |a.data| == k * BLOCK_SIZE;
      forall i: nat | i < k + 1
        ensures |Slice(data', i)| == blocks[i].size && h(Slice(data', i)) == blocks[i].hash
      {
        if i < k {
          assert Slice(data', i) == Slice(a.data, i);
        } else {
          assert Slice(data', i) == piece;
        }
      }
    }
  }

  lemma NothingFaithful(h: Hasher, blocks: seq<Block>, size: int)
    requires size >= 0 && ValidLayout(blocks, size)
    ensures Faithful(h, blocks, size, [], 0)
  {}

  lemma {:induction false} AssembleFaithful(h: Hasher, blocks: seq<Block>, size: int, old': Option<Bytes>,
                                            m: map<Digest, Block>, fetch: Replies, k: nat)
    requires size >= 0 && ValidLayout(blocks, size) && k <= |blocks|
    ensures var r := Assemble(h, blocks, old', m, fetch, k);
            r.Ok? ==> Faithful(h, blocks, size, r.value.data, k)
                      && r.value.received + r.value.reused == |r.value.data|
  {
    hide AddBlock, ReadOld, Faithful, ValidLayout, BlockMap;
    if k == 0 {
      NothingFaithful(h, blocks, size);
    } else {
      AssembleFaithful(h, blocks, size, old', m, fetch, k - 1);
      var a := Assemble(h, blocks, old', m, fetch, k - 1);
      if a.Ok? {
        AddBlockFaithful(h, blocks, size, a.value, k - 1, ReadOld(old', m, blocks[k - 1]), fetch(k - 1));
      }
    }
  }

  /** A complete faithful file with the announced full hash has the entry as its fingerprint. */
  lemma FaithfulIsDescribed(h: Hasher, e: Entry, data: Bytes)
    requires ValidEntry(e) && e.kind == "file"
    requires Faithful(h, e.blocks, e.size, data, |e.blocks|) && h(data) == e.hash
    ensures Fingerprint(h, e.path, data, e.mode) == e
  {
    assert |data| == e.size;
    var bs := SliceBlocks(h, data, BlockCount(|data|));
    forall i | 0 <= i < |bs| ensures bs[i] == e.blocks[i] {
      assert BlockAt(e.blocks[i], i, e.size);
    }
    assert bs == e.blocks;
  }

  /** The bytes of the first k blocks whose hash no block of the old file has. */
  function FreshBytes(blocks: seq<Block>, m: map<Digest, Block>, k: nat): int
    requires k <= |blocks|
  {
    if k == 0 then 0
    else FreshBytes(blocks, m, k - 1) + if blocks[k - 1].hash in m then 0 else blocks[k - 1].size
  }

  /** u holds a content and all its block slices. */
  ghost predicate Covers(u: set<Bytes>, c: Bytes) {
    c in u && forall i: nat :: i < BlockCount(|c|) ==> Slice(c, i) in u
  }

  /** Blocks with one hash have one size. */
  ghost predicate SizesAgree(blocks: seq<Block>, oldBlocks: seq<Block>) {
    forall i, j :: 0 <= i < |blocks| && 0 <= j < |oldBlocks| && blocks[i].hash == oldBlocks[j].hash ==>
                     blocks[i].size == oldBlocks[j].size
  }

  /** This is what freedom from collisions gives for two contents and their slices. */
  lemma NoCollisionSizesAgree(h: Hasher, u: set<Bytes>, a: Bytes, c: Bytes)
    requires InjectiveOn(h, u) && Covers(u, a) && Covers(u, c)
    ensures SizesAgree(SliceBlocks(h, a, BlockCount(|a|)), SliceBlocks(h, c, BlockCount(|c|)))
  {
    var x, y := SliceBlocks(h, a, BlockCount(|a|)), SliceBlocks(h, c, BlockCount(|c|));
    forall i: nat, j: nat | i < |x| && j < |y| && x[i].hash == y[j].hash ensures x[i].size == y[j].size {
      assert Slice(a, i) in u && Slice(c, j) in u;
    }
  }

  lemma SliceRange(h: Hasher, c: Bytes, j: nat)
    requires j < BlockCount(|c|)
    ensures BytesAt(c, SliceBlock(h, c, j)) == Some(Slice(c, j))
  {
  }

  lemma MappedBlock(h: Hasher, c: Bytes, m: map<Digest, Block>, d: Digest) returns (j: nat)
    requires m == BlockMap(SliceBlocks(h, c, BlockCount(|c|))) && d in m
    ensures j < BlockCount(|c|) && m[d] == SliceBlock(h, c, j) && m[d].hash == d
  {
    hide *;
    var bs := SliceBlocks(h, c, BlockCount(|c|));
    assert m[d] in bs && m[d].hash == d;
    j :| 0 <= j < |bs| && bs[j] == m[d];
  }

  /** A listed block of an unchanged old file is found again and verifies. */
  lemma LocalCopyFound(h: Hasher, c: Bytes, m: map<Digest, Block>, b: Block)
    requires m == BlockMap(SliceBlocks(h, c, BlockCount(|c|)))
    requires b.hash in m && m[b.hash].size == b.size
    ensures Matches(h, ReadOld(Some(c), m, b), b)
  {
    hide SliceBlocks, BlockMap, Slice, BytesAt, BlockCount;
    var j := MappedBlock(h, c, m, b.hash);
    SliceRange(h, c, j);
  }

  /** Despite duplicate blocks and the last-wins map, exactly the blocks whose hash is new are
      fetched while the old file stays as it was fingerprinted. */
  lemma {:induction false} DeltaIsExact(h: Hasher, blocks: seq<Block>, c: Bytes, fetch: Replies, k: nat)
    requires k <= |blocks|
    requires SizesAgree(blocks, SliceBlocks(h, c, BlockCount(|c|)))
    ensures var m := BlockMap(SliceBlocks(h, c, BlockCount(|c|)));
            var r := Assemble(h, blocks, Some(c), m, fetch, k);
            r.Ok? ==> r.value.received == FreshBytes(blocks, m, k)
  {
    hide SliceBlocks, BlockMap, ReadOld, Matches;
    if k > 0 {
      DeltaIsExact(h, blocks, c, fetch, k - 1);
      var m := BlockMap(SliceBlocks(h, c, BlockCount(|c|)));
      var b := blocks[k - 1];
      if b.hash in m {
        LocalCopyFound(h, c, m, b);
      } else {
        NoLocalCopy(h, c, m, b);
      }
    }
  }

  lemma NoLocalCopy(h: Hasher, c: Bytes, m: map<Digest, Block>, b: Block)
    requires b.hash !in m
    ensures !Matches(h, ReadOld(Some(c), m, b), b)
  {
  }

  /** Without an old file everything is fetched. */
  lemma {:induction false} NothingToReuse(h: Hasher, blocks: seq<Block>, m: map<Digest, Block>, fetch: Replies, k: nat)
    requires k <= |blocks|
    ensures var r := Assemble(h, blocks, None, m, fetch, k);
            r.Ok? ==> r.value.reused == 0 && r.value.received == FreshBytes(blocks, map[], k)
  {
    if k > 0 {
      NothingToReuse(h, blocks, m, fetch, k - 1);
    }
  }

  /** The peer answers every request with the announced slice of one unchanged content. */
  ghost predicate Delivers(h: Hasher, c: Bytes, fetch: Replies) {
    forall i: nat :: i < BlockCount(|c|) ==> fetch(i) == Some(Slice(c, i))
  }

  /** From an unchanged source the loop cannot fail, and it rebuilds the content block by block
      unless a reused slice collides with the slice it stands for. */
  lemma {:induction false} AssembleDelivers(h: Hasher, c: Bytes, old': Option<Bytes>, m: map<Digest, Block>,
                                            fetch: Replies, u: set<Bytes>, k: nat)
    requires k <= BlockCount(|c|) && Delivers(h, c, fetch) && InjectiveOn(h, u)
    requires forall i: nat :: i < BlockCount(|c|) ==> Slice(c, i) in u
    requires forall b :: ReadOld(old', m, b).Some? ==> ReadOld(old', m, b).value in u
    ensures var r := Assemble(h, SliceBlocks(h, c, BlockCount(|c|)), old', m, fetch, k);
            r.Ok? && r.value.data == c[..Min(k * BLOCK_SIZE, |c|)]
  {
    hide AddBlock, ReadOld, Slice, InjectiveOn, BlockCount;
    if k > 0 {
      var i := k - 1;
      AssembleDelivers(h, c, old', m, fetch, u, i);
      var blocks := SliceBlocks(h, c, BlockCount(|c|));
      SlicesJoin(c, i);
      assert blocks[i] == SliceBlock(h, c, i);
      var a := Assemble(h, blocks, old', m, fetch, i);
      TurnDelivers(h, c, i, a.value, ReadOld(old', m, blocks[i]), u);
    } else {
      assert c[..0] == [];
    }
  }

  /** Whatever arrives, what is assembled is the content that the blocks describe, unless a piece collides
      with the slice it stands for. */
  lemma {:induction false} AssembledIsOriginal(h: Hasher, c: Bytes, old': Option<Bytes>, m: map<Digest, Block>,
                                               fetch: Replies, u: set<Bytes>, k: nat)
    requires k <= BlockCount(|c|) && InjectiveOn(h, u) && RepliesIn(u, fetch)
    requires forall i: nat :: i < BlockCount(|c|) ==> Slice(c, i) in u
    requires forall b :: ReadOld(old', m, b).Some? ==> ReadOld(old', m, b).value in u
    ensures var r := Assemble(h, SliceBlocks(h, c, BlockCount(|c|)), old', m, fetch, k);
            r.Ok? ==> r.value.data == c[..Min(k * BLOCK_SIZE, |c|)]
  {
    hide AddBlock, ReadOld, Slice, InjectiveOn, BlockCount;
    if k > 0 {
      var i := k - 1;
      AssembledIsOriginal(h, c, old', m, fetch, u, i);
      var blocks := SliceBlocks(h, c, BlockCount(|c|));
      SlicesJoin(c, i);
      assert blocks[i] == SliceBlock(h, c, i);
      var a := Assemble(h, blocks, old', m, fetch, i);
      if a.Ok? {
        TurnIsOriginal(h, c, i, a.value, ReadOld(old', m, blocks[i]), fetch(i), u);
      }
    } else {
      assert c[..0] == [];
    }
  }

  ghost predicate RepliesIn(u: set<Bytes>, fetch: Replies) {
    forall k: nat :: fetch(k).Some? ==> fetch(k).value in u
  }

  lemma TurnIsOriginal(h: Hasher, c: Bytes, i: nat, a: Build, read: Option<Bytes>, reply: Option<Bytes>, u: set<Bytes>)
    requires InjectiveOn(h, u) && i * BLOCK_SIZE <= |c| && Slice(c, i) in u
    requires (read.Some? ==> read.value in u) && (reply.Some? ==> reply.value in u)
    ensures var r := AddBlock(h, a, SliceBlock(h, c, i), read, reply);
            r.Ok? ==> r.value.data == a.data + Slice(c, i)
  {
    hide Slice;
  }

  lemma SlicesJoin(c: Bytes, i: nat)
    requires i < BlockCount(|c|)
    ensures i * BLOCK_SIZE <= |c|
    ensures c[..Min(i * BLOCK_SIZE, |c|)] + Slice(c, i) == c[..Min((i + 1) * BLOCK_SIZE, |c|)]
  {}

  lemma TurnDelivers(h: Hasher, c: Bytes, i: nat, a: Build, read: Option<Bytes>, u: set<Bytes>)
    requires InjectiveOn(h, u) && i * BLOCK_SIZE <= |c| && Slice(c, i) in u && (read.Some? ==> read.value in u)
    ensures var r := AddBlock(h, a, SliceBlock(h, c, i), read, Some(Slice(c, i)));
            r.Ok? && r.value.data == a.data + Slice(c, i)
  {
    hide Slice;
  }

  /** A failed turn ends the loop. */
  lemma {:induction false} AssembleStops(h: Hasher, blocks: seq<Block>, old': Option<Bytes>, m: map<Digest, Block>,
                                         fetch: Replies, k: nat, n: nat)
    requires k <= n <= |blocks| && Assemble(h, blocks, old', m, fetch, k).Err?
    ensures Assemble(h, blocks, old', m, fetch, n) == Assemble(h, blocks, old', m, fetch, k)
  {
    if k < n {
      AssembleStops(h, blocks, old', m, fetch, k, n - 1);
    }
  }
}

/** The fixed-block layout: ValidateEntry and fingerprint of internal/store/files.go, and the
    block lookup of ReadBlock in internal/store/scan.go. */
module Layout {
  import opened Model
  import opened Paths
  import opened Tree

  function BlockCount(size: int): int {
    (size + BLOCK_SIZE - 1) / BLOCK_SIZE
  }

  /** Block number i of a file of the given size occupies these bytes. */
  predicate BlockAt(b: Block, i: int, size: int) {
    && b.offset == i * BLOCK_SIZE
    && b.size == Min(BLOCK_SIZE, size - i * BLOCK_SIZE)
    && ValidHash(b.hash)
  }

  predicate ValidLayout(blocks: seq<Block>, size: int) {
    && |blocks| == BlockCount(size)
    && forall i :: 0 <= i < |blocks| ==> BlockAt(blocks[i], i, size)
  }

  /** The entries ValidateEntry accepts. */
  predicate ValidEntry(e: Entry) {
    && ValidPath(e.path)
    && e.mode <= 0x1FF
    && if e.kind == "directory" then e.size == 0 && e.hash == "" && e.blocks == []
       else e.kind == "file" && 0 <= e.size <= MAX_FILE_SIZE && ValidHash(e.hash) && ValidLayout(e.blocks, e.size)
  }

  /** ValidateEntry: one pass over the blocks with a running offset. */
  method ValidateEntry(e: Entry) returns (ok: bool)
    ensures ok == ValidEntry(e)
  {
    if !ValidPath(e.path) || e.mode > 0x1FF {
      return false;
    }
    if e.kind == "directory" {
      return e.size == 0 && e.hash == "" && |e.blocks| == 0;
    }
    if e.kind != "file" || e.size < 0 || e.size > MAX_FILE_SIZE || !ValidHash(e.hash) {
      return false;
    }
    if |e.blocks| != BlockCount(e.size) {
      return false;
    }
    var offset := 0;
    for i := 0 to |e.blocks|
      invariant offset == Min(i * BLOCK_SIZE, e.size)
      invariant forall j :: 0 <= j < i ==> BlockAt(e.blocks[j], j, e.size)
    {
      var size := Min(BLOCK_SIZE, e.size - offset);
      if e.blocks[i].offset != offset || e.blocks[i].size != size || !ValidHash(e.blocks[i].hash) {
        assert !BlockAt(e.blocks[i], i, e.size);
        return false;
      }
      offset := offset + size;
    }
    return true;
  }

  /** An independent reading of "a layout": the pieces follow one another from offset `from` to
      the end of the file, none is empty, and every piece but the last is full. */
  ghost predicate Tiles(blocks: seq<Block>, from: int, size: int) {
    if blocks == [] then from == size
    else
      && blocks[0].offset == from
      && 0 < blocks[0].size <= BLOCK_SIZE
      && (|blocks| > 1 ==> blocks[0].size == BLOCK_SIZE)
      && ValidHash(blocks[0].hash)
      && Tiles(blocks[1..], from + blocks[0].size, size)
  }

  lemma {:induction false} TilesAt(blocks: seq<Block>, k: nat, size: int)
    requires size >= 0 && k * BLOCK_SIZE <= size
    ensures Tiles(blocks, k * BLOCK_SIZE, size) <==>
              && |blocks| + k == BlockCount(size)
              && forall i :: 0 <= i < |blocks| ==> BlockAt(blocks[i], i + k, size)
  {
    if |blocks| == 1 {
      assert Tiles(blocks[1..], k * BLOCK_SIZE + blocks[0].size, size) <==> k * BLOCK_SIZE + blocks[0].size == size;
    } else if |blocks| > 1 {
      var rest := blocks[1..];
      if (k + 1) * BLOCK_SIZE <= size {
        TilesAt(rest, k + 1, size);
        assert forall i :: 0 <= i < |rest| ==> rest[i] == blocks[i + 1];
        assert forall i :: 1 <= i < |blocks| ==> blocks[i] == rest[i - 1];
      } else {
        assert |blocks| + k > BlockCount(size);
        if Tiles(blocks, k * BLOCK_SIZE, size) {
          TilesStay(rest, (k + 1) * BLOCK_SIZE, size);
        }
      }
    }
  }

  lemma {:induction false} TilesStay(blocks: seq<Block>, from: int, size: int)
    requires Tiles(blocks, from, size)
    ensures from <= size
  {
    if blocks != [] {
      TilesStay(blocks[1..], from + blocks[0].size, size);
    }
  }

  /** ValidateEntry accepts a block list exactly when it tiles the file. */
  lemma LayoutIsTiling(blocks: seq<Block>, size: int)
    requires size >= 0
    ensures ValidLayout(blocks, size) <==> Tiles(blocks, 0, size)
  {
    TilesAt(blocks, 0, size);
  }

  /** The bytes of block i of a content. */
  function Slice(c: Bytes, i: nat): Bytes
    requires i * BLOCK_SIZE <= |c|
  {
    c[i * BLOCK_SIZE .. i * BLOCK_SIZE + Min(BLOCK_SIZE, |c| - i * BLOCK_SIZE)]
  }

  function SliceBlock(h: Hasher, c: Bytes, i: nat): Block
    requires i * BLOCK_SIZE <= |c|
  {
    Block(i * BLOCK_SIZE, |Slice(c, i)|, h(Slice(c, i)))
  }

  function SliceBlocks(h: Hasher, c: Bytes, n: nat): (bs: seq<Block>)
    requires n <= BlockCount(|c|)
    ensures |bs| == n
    ensures forall i :: 0 <= i < n ==> bs[i] == SliceBlock(h, c, i)
  {
    if n == 0 then [] else SliceBlocks(h, c, n - 1) + [SliceBlock(h, c, n - 1)]
  }

  /** The entry that describes a file with this content and mode. */
  function Fingerprint(h: Hasher, path: string, c: Bytes, mode: nat): Entry {
    Entry(path, "file", |c|, mode, h(c), SliceBlocks(h, c, BlockCount(|c|)))
  }

  /** fingerprint's reading loop. */
  method FingerprintFile(h: Hasher, path: string, c: Bytes, mode: nat) returns (r: Result<Entry, Error>)
    ensures r == if |c| > MAX_FILE_SIZE then Err(Unsupported) else Ok(Fingerprint(h, path, c, mode))
  {
    if |c| > MAX_FILE_SIZE {
      return Err(Unsupported);
    }
    var blocks := [];
    var offset := 0;
    while offset < |c|
      invariant offset == Min(|blocks| * BLOCK_SIZE, |c|)
      invariant |blocks| <= BlockCount(|c|)
      invariant blocks == SliceBlocks(h, c, |blocks|)
    {
      var size := Min(BLOCK_SIZE, |c| - offset);
      var buf := c[offset .. offset + size];
      assert buf == Slice(c, |blocks|);
      blocks := blocks + [Block(offset, size, h(buf))];
      offset := offset + size;
    }
    return Ok(Entry(path, "file", |c|, mode, h(c), blocks));
  }

  /** fingerprint only produces entries that ValidateEntry accepts. */
  lemma FingerprintValid(h: Hasher, path: string, c: Bytes, mode: nat)
    requires HexHasher(h) && ValidPath(path) && |c| <= MAX_FILE_SIZE && mode <= 0x1FF
    ensures ValidEntry(Fingerprint(h, path, c, mode))
  {
  }

  /** The folder as ReadBlock meets it, check by check: when it looks for the marker, at the components of
      the path, at the opened file's size, and the content of that file when its bytes are read. No lock
      holds it still. */
  datatype Moments = Moments(marker: Tree, path: Tree, file: Tree, content: Bytes)

  /** The moments of a folder that stays as it is. */
  function Still(t: Tree, name: string): Moments {
    Moments(t, t, t, if name in t && t[name].File? then t[name].content else [])
  }

  /** ReadBlock's answer: index lookup by offset, then the file, then the hash. */
  function ServeDuring(h: Hasher, id: string, index: map<string, Entry>, name: string, entryHash: Digest,
                       b: Block, now: Moments): Result<Bytes, Error> {
    if !ValidPath(name) || name !in index || !ValidEntry(index[name]) then Err(Stale)
    else
      var e := index[name];
      if e.kind != "file" || e.hash != entryHash || b.offset < 0 || b.offset % BLOCK_SIZE != 0 then Err(Stale)
      else if b.offset / BLOCK_SIZE >= |e.blocks| || e.blocks[b.offset / BLOCK_SIZE] != b then Err(Stale)
      else if !MarkerOk(now.marker, id) then Err(Marker)
      else if !ComponentsOk(now.path, name, false) then Err(Unsupported)
      else if name !in now.file || !now.file[name].File? || |now.file[name].content| != e.size then Err(Stale)
      else if b.offset + b.size > |now.content| then Err(Stale)
      else
        var data := now.content[b.offset .. b.offset + b.size];
        if h(data) != b.hash then Err(Stale) else Ok(data)
  }

  function ServeBlock(h: Hasher, id: string, t: Tree, index: map<string, Entry>,
                      name: string, entryHash: Digest, b: Block): Result<Bytes, Error> {
    ServeDuring(h, id, index, name, entryHash, b, Still(t, name))
  }

  /** While its file is unchanged, every block an indexed entry lists is served, and it is
      exactly that slice of the content. */
  lemma UnchangedSourceServesSlices(h: Hasher, id: string, t: Tree, index: map<string, Entry>, p: string, i: nat)
    requires HexHasher(h) && MarkerOk(t, id)
    requires ComponentsOk(t, p, false) && t[p].File? && |t[p].content| <= MAX_FILE_SIZE
    requires p in index && index[p].mode <= 0x1FF && index[p] == Fingerprint(h, p, t[p].content, index[p].mode)
    requires i < |index[p].blocks|
    ensures ServeBlock(h, id, t, index, p, index[p].hash, index[p].blocks[i]) == Ok(Slice(t[p].content, i))
  {
    FingerprintValid(h, p, t[p].content, index[p].mode);
    hide ValidPath;
    assert index[p].blocks[i] == SliceBlock(h, t[p].content, i);
  }

  /** Bytes are served only from the folder's own marker, over plain directories, and from a file of the
      announced size, each as its check met it. */
  lemma ServedFromPlainFolder(h: Hasher, id: string, index: map<string, Entry>, p: string, entryHash: Digest, b: Block,
                              now: Moments)
    requires ServeDuring(h, id, index, p, entryHash, b, now).Ok?
    ensures ".backuply-folder" in now.marker && now.marker[".backuply-folder"].File?
            && now.marker[".backuply-folder"].content == id + "\n"
    ensures p in now.path && !now.path[p].Special?
            && forall a :: IsAncestor(a, p) && a in now.path ==> now.path[a].Dir?
    ensures p in now.file && now.file[p].File? && p in index && |now.file[p].content| == index[p].size
    ensures 0 <= b.offset <= b.offset + b.size <= |now.content|
            && ServeDuring(h, id, index, p, entryHash, b, now).value == now.content[b.offset .. b.offset + b.size]
  {
    hide ValidPath;
    assert forall a :: IsAncestor(a, p) ==> a in Ancestors(p);
    var i := b.offset / BLOCK_SIZE;
    assert BlockAt(index[p].blocks[i], i, index[p].size);
  }

  /** Whatever happens to the folder between the checks, bytes that are served have the announced size and
      hash, and belong to the row that the lookup found; so they are that slice of any content the row
      was made from, or an explicit collision with it. */
  lemma ServedBlockIsListed(h: Hasher, id: string, index: map<string, Entry>, p: string, entryHash: Digest, b: Block,
                            now: Moments, original: Bytes)
    requires ServeDuring(h, id, index, p, entryHash, b, now).Ok?
    ensures var data := ServeDuring(h, id, index, p, entryHash, b, now).value;
            && |data| == b.size && h(data) == b.hash
            && p in index && index[p].hash == entryHash && b in index[p].blocks
            && (index[p] == Fingerprint(h, p, original, index[p].mode) ==>
                  var i := b.offset / BLOCK_SIZE;
                  && 0 <= i < BlockCount(|original|)
                  && (data == Slice(original, i) || Collision(h, data, Slice(original, i))))
  {
    hide ValidPath, MarkerOk, ComponentsOk;
    var i := b.offset / BLOCK_SIZE;
    assert b == index[p].blocks[i];
    if index[p] == Fingerprint(h, p, original, index[p].mode) {
      assert index[p].blocks[i] == SliceBlock(h, original, i);
    }
  }
}

/** Sending a folder index as a list of frames, and what both ends' limits make of it
    (internal/transport/transport.go:104-110, 237-259 and 359-394). */
module Transfer {
  import opened Model
  import opened Layout
  import opened Json
  import opened Index

  const MAX_INDEX_BYTES: int := 67108864
  const MAX_LISTED: int := 100000

  datatype Message =
    | Hello(version: int)
    | EntryIs(e: Entry)
    | End
    | Rejected
    | BlockFollows
    | Data(data: Bytes)

  /** The length of a frame. */
  function Size(m: Message): nat {
    match m
    case Hello(v) => |"{\"type\":\"hello\",\"version\":" + Decimal(v) + "}"|
    case EntryIs(e) => |EncodeEntryMessage(e)|
    case End => |END_MESSAGE|
    case Rejected => |"{\"type\":\"error\",\"error\":\"request rejected\"}"|
    case BlockFollows => |"{\"type\":\"block\"}"|
    case Data(d) => |d|
  }

  ghost function TotalSize(ms: seq<Message>): nat {
    if ms == [] then 0 else TotalSize(ms[..|ms| - 1]) + Size(ms[|ms| - 1])
  }

  lemma {:induction false} TotalSizePrefix(ms: seq<Message>, k: nat)
    requires k <= |ms|
    ensures TotalSize(ms[..k]) <= TotalSize(ms)
  {
    hide Size;
    if k < |ms| {
      TotalSizePrefix(ms[..|ms| - 1], k);
      assert ms[..|ms| - 1][..k] == ms[..k];
    } else {
      assert ms[..k] == ms;
    }
  }

  function EntryFrames(es: seq<Entry>): (ms: seq<Message>)
    ensures |ms| == |es| && forall i :: 0 <= i < |es| ==> ms[i] == EntryIs(es[i])
  {
    seq(|es|, i requires 0 <= i < |es| => EntryIs(es[i]))
  }

  ghost predicate FramesFit(es: seq<Entry>) {
    forall i :: 0 <= i < |es| ==> |EncodeEntryMessage(es[i])| <= MAX_CONTROL
  }

  /** What a server may have sent for a list of entries, and whether it still serves this connection. */
  ghost predicate ListReply(es: seq<Entry>, ms: seq<Message>, alive: bool) {
    if |es| > MAX_LISTED then alive && ms == [Rejected]
    else if FramesFit(es) && TotalSize(EntryFrames(es)) <= MAX_INDEX_BYTES then alive && ms == EntryFrames(es) + [End]
    else !alive && ms <= EntryFrames(es)
  }

  lemma AppendSize(ms: seq<Message>, m: Message)
    ensures TotalSize(ms + [m]) == TotalSize(ms) + Size(m)
  {
    assert (ms + [m])[..|ms|] == ms;
  }

  lemma EntrySize(e: Entry)
    ensures Size(EntryIs(e)) == |EncodeEntryMessage(e)|
  {}

  lemma EndSize()
    ensures Size(End) == |END_MESSAGE| == 14
  {}

  /** handleRequest for "list", after the backend has answered. */
  method ServeList(es: seq<Entry>) returns (ms: seq<Message>, alive: bool)
    ensures ListReply(es, ms, alive)
  {
    hide Size, EncodeEntryMessage, TotalSize;
    if |es| > MAX_LISTED {
      return [Rejected], true;
    }
    ms := [];
    var total := 0;
    assert TotalSize(ms) == 0 by { NothingSent(); }
    for i := 0 to |es|
      invariant ms == EntryFrames(es)[..i]
      invariant total == TotalSize(ms) <= MAX_INDEX_BYTES
      invariant forall j :: 0 <= j < i ==> |EncodeEntryMessage(es[j])| <= MAX_CONTROL
    {
      var n := |EncodeEntryMessage(es[i])|;
      if n > MAX_CONTROL {
        return ms, false;
      }
      AppendSize(ms, EntryIs(es[i]));
      EntrySize(es[i]);
      ms := ms + [EntryIs(es[i])];
      total := total + n;
      assert ms == EntryFrames(es)[..i + 1];
      if total > MAX_INDEX_BYTES {
        TotalSizePrefix(EntryFrames(es), i + 1);
        return ms, false;
      }
    }
    assert EntryFrames(es)[..|es|] == EntryFrames(es);
    ms := ms + [End];
    alive := true;
  }

  lemma NothingSent()
    ensures TotalSize([]) == 0
  {}

  /** How many entry frames a response starts with. */
  function Leading(ms: seq<Message>): (n: nat)
    ensures n <= |ms|
    ensures forall i :: 0 <= i < n ==> ms[i].EntryIs?
    ensures n < |ms| ==> !ms[n].EntryIs?
  {
    if ms == [] || !ms[0].EntryIs? then 0 else 1 + Leading(ms[1..])
  }

  /** The client accepts a response exactly when it is a bounded list of entries with its end frame, and
      all of it is within the limit. */
  ghost predicate Acceptable(ms: seq<Message>) {
    var n := Leading(ms);
    n < |ms| && ms[n] == End && n <= MAX_LISTED && TotalSize(ms[..n + 1]) <= MAX_INDEX_BYTES
  }

  lemma LeadingStops(ms: seq<Message>, k: nat)
    requires k < |ms| && k <= Leading(ms)
    ensures ms[k].EntryIs? <==> k < Leading(ms)
  {}

  /** Client.List after its request: `ms` is what arrives before the input ends. */
  method ClientList(ms: seq<Message>) returns (r: Option<seq<Entry>>, used: nat)
    ensures r.Some? <==> Acceptable(ms)
    ensures r.Some? ==> EntryFrames(r.value) == ms[..Leading(ms)] && used == Leading(ms) + 1
    ensures used <= |ms|
  {
    hide Size, TotalSize, Leading;
    var entries: seq<Entry> := [];
    var total := 0;
    used := 0;
    assert TotalSize(ms[..0]) == 0 by { NothingSent(); }
    while used < |ms|
      invariant used <= |ms| && used <= Leading(ms)
      invariant EntryFrames(entries) == ms[..used] && |entries| == used <= MAX_LISTED
      invariant total == TotalSize(ms[..used]) <= MAX_INDEX_BYTES
    {
      var m := ms[used];
      LeadingStops(ms, used);
      AppendSize(ms[..used], m);
      assert ms[..used + 1] == ms[..used] + [m];
      total := total + Size(m);
      used := used + 1;
      if total > MAX_INDEX_BYTES {
        if Leading(ms) < |ms| { Exceeded(ms, used, Leading(ms) + 1); }
        return None, used;
      }
      match m {
        case EntryIs(e) =>
          if |entries| >= MAX_LISTED {
            return None, used;
          }
          entries := entries + [e];
        case End =>
          assert ms[..used - 1] == ms[..Leading(ms)];
          return Some(entries), used;
        case _ => return None, used;
      }
    }
    return None, used;
  }

  lemma Exceeded(ms: seq<Message>, k: nat, n: nat)
    requires k <= n <= |ms|
    ensures TotalSize(ms[..k]) <= TotalSize(ms[..n])
  {
    TotalSizePrefix(ms[..n], k);
    assert ms[..n][..k] == ms[..k];
  }

  /** The lists that a client can get. */
  ghost predicate Deliverable(es: seq<Entry>) {
    |es| <= MAX_LISTED && FramesFit(es) && TotalSize(EntryFrames(es)) + |END_MESSAGE| <= MAX_INDEX_BYTES
  }

  lemma LeadingOfReply(es: seq<Entry>, ms: seq<Message>)
    requires ms <= EntryFrames(es) + [End]
    ensures Leading(ms) == if |ms| <= |es| then |ms| else |es|
  {
    var all := EntryFrames(es) + [End];
    assert forall i :: 0 <= i < |ms| ==> ms[i] == all[i];
    assert |ms| > |es| ==> ms[|es|] == End;
    assert forall i :: 0 <= i < |ms| && i < |es| ==> ms[i].EntryIs?;
  }

  /** A transfer is exact or fails: of whatever part of the reply arrives, the client accepts only the
      whole list, and it accepts the whole list exactly if that is deliverable. */
  lemma TransferIsExactOrFails(es: seq<Entry>, ms: seq<Message>, alive: bool, k: nat)
    requires ListReply(es, ms, alive) && k <= |ms|
    ensures Acceptable(ms[..k]) <==> Deliverable(es) && k == |ms|
    ensures Acceptable(ms[..k]) ==> alive && ms[..k][..Leading(ms[..k])] == EntryFrames(es)
  {
    hide Size, EncodeEntryMessage;
    var part := ms[..k];
    if |es| > MAX_LISTED {
      if k == 1 { assert part[0] == Rejected; }
    } else if alive {
      LeadingOfReply(es, part);
      if k == |ms| {
        assert part == EntryFrames(es) + [End] && part[..|es|] == EntryFrames(es);
        assert part[..|es| + 1] == part;
        assert TotalSize(part) == TotalSize(EntryFrames(es)) + Size(End);
        assert Size(End) == |END_MESSAGE| by { EndSize(); }
      }
    } else {
      assert part <= EntryFrames(es) + [End];
      LeadingOfReply(es, part);
    }
  }

  lemma {:induction false} FramesSize(es: seq<Entry>)
    ensures TotalSize(EntryFrames(es)) == TotalBytes(es) + 24 * |es|
  {
    hide ManifestLength, EncodeEntryMessage;
    if es != [] {
      var n := |es| - 1;
      FramesSize(es[..n]);
      assert EntryFrames(es)[..n] == EntryFrames(es[..n]);
      EntryMessageLength(es[n]);
      assert Size(EntryIs(es[n])) == |EncodeEntryMessage(es[n])|;
    }
  }

  /** How the wire's budget compares with the store's: for valid entries it is exactly 24 bytes for each
      entry and 12 bytes more. */
  lemma WireBudget(es: seq<Entry>)
    requires forall i :: 0 <= i < |es| ==> ValidEntry(es[i])
    ensures Deliverable(es) <==> |es| <= MAX_ENTRIES && (2 + TotalBytes(es)) + 24 * |es| + 12 <= MAX_MANIFEST_BYTES
  {
    hide ManifestLength, EncodeEntryMessage, ValidEntry;
    FramesSize(es);
    EndSize();
    forall i | 0 <= i < |es| ensures |EncodeEntryMessage(es[i])| <= MAX_CONTROL {
      ValidEntryFitsFrame(es[i]);
    }
  }

  /** Every index that leaves that much room is transferred, as a whole. */
  lemma RoomyIndexIsDelivered(es: seq<Entry>, ms: seq<Message>, alive: bool)
    requires DistinctPaths(es) && forall i :: 0 <= i < |es| ==> ValidEntry(es[i])
    requires ListReply(es, ms, alive)
    requires var m := Override(map[], es); |m| <= MAX_ENTRIES && ManifestBytes(m) + 24 * |m| + 14 <= MAX_MANIFEST_BYTES
    ensures alive && Acceptable(ms) && ms[..Leading(ms)] == EntryFrames(es)
  {
    hide ManifestLength, EncodeEntryMessage, ValidEntry, ListReply, Override;
    FillBytes(es);
    WireBudget(es);
    TransferIsExactOrFails(es, ms, alive, |ms|);
    assert ms[..|ms|] == ms;
  }
}

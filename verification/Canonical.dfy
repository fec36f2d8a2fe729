/** The canonical JSON form of an entry says everything about it: no two entries share one
    (internal/store/store.go:132-139, internal/transport/transport.go:104-110). */
module Canonical {
  import opened Model
  import opened Layout
  import opened Json

  lemma SamePrefix(p: string, x: string, y: string)
    requires p + x == p + y
    ensures x == y
  {
    assert x == (p + x)[|p|..] && y == (p + y)[|p|..];
  }

  lemma HexDigits(a: nat, b: nat)
    requires a < 16 && b < 16 && HexDigit(a) == HexDigit(b)
    ensures a == b
  {}

  /** The escape of one byte can be told from what follows. */
  lemma TokenUnique(c: char, d: char, x: string, y: string)
    requires EscapeChar(c) + x == EscapeChar(d) + y
    ensures c == d && x == y
  {
    var s, t := EscapeChar(c), EscapeChar(d);
    assert (s + x)[0] == s[0] && (t + y)[0] == t[0];
    TokenKind(c);
    TokenKind(d);
    if |s| > 1 {
      assert (s + x)[1] == s[1] && (t + y)[1] == t[1];
      if |s| == 6 {
        assert (s + x)[4] == s[4] && (s + x)[5] == s[5] && (t + y)[4] == t[4] && (t + y)[5] == t[5];
        HexDigits(c as int / 16, d as int / 16);
        HexDigits(c as int % 16, d as int % 16);
      }
    }
    SamePrefix(s, x, y);
  }

  /** The shape of an escape: the byte itself, a backslash and one byte, or a backslash, u and four digits. */
  lemma TokenKind(c: char)
    ensures var s := EscapeChar(c);
            && s[0] != '"'
            && (|s| == 1 <==> s[0] != '\\') && (|s| == 1 ==> s == [c])
            && (|s| == 1 || |s| == 2 || |s| == 6)
            && (|s| == 2 ==> s[1] != 'u')
            && (|s| == 6 ==> c as int < 0x80 && s == "\\u00" + [HexDigit(c as int / 16), HexDigit(c as int % 16)])
            && (|s| == 2 ==> c == if s[1] == 'b' then 8 as char else if s[1] == 't' then 9 as char else if s[1] == 'n' then 10 as char
                                  else if s[1] == 'f' then 12 as char else if s[1] == 'r' then 13 as char else s[1])
  {}

  /** A quoted string ends where it must. */
  lemma {:induction false} StringUnique(a: string, b: string, x: string, y: string)
    requires Escape(a) + "\"" + x == Escape(b) + "\"" + y
    ensures a == b && x == y
  {
    hide EscapeChar;
    var s, t := Escape(a) + "\"" + x, Escape(b) + "\"" + y;
    EscapeStart(a);
    EscapeStart(b);
    assert s[0] == if a == "" then '"' else Escape(a)[0];
    assert t[0] == if b == "" then '"' else Escape(b)[0];
    assert a == "" <==> b == "";
    if a == "" {
      assert s == "\"" + x && t == "\"" + y;
      SamePrefix("\"", x, y);
    } else {
      var ta, ra := Token(a);
      var tb, rb := Token(b);
      assert s == ta + (Escape(ra) + "\"" + x) && t == tb + (Escape(rb) + "\"" + y);
      SameToken(a, b, Escape(ra) + "\"" + x, Escape(rb) + "\"" + y);
      StringUnique(ra, rb, x, y);
    }
  }

  lemma EscapeStart(a: string)
    ensures a == "" ==> Escape(a) == ""
    ensures a != "" ==> |Escape(a)| > 0 && Escape(a)[0] != '"'
  {
    if a != "" {
      TokenKind(a[0]);
    }
  }

  /** The first escape of a string, and what it leaves. */
  lemma Token(a: string) returns (t: string, rest: string)
    requires a != ""
    ensures Escape(a) == t + Escape(rest) && |rest| < |a|
    ensures t == TokenOf(a) && rest == RestOf(a)
  {
    t := TokenOf(a);
    rest := RestOf(a);
  }

  function TokenOf(a: string): string
    requires a != ""
  {
    if StartsWithSeparator(a) then "\\u202" + [if a[2] as int == 0xA8 then '8' else '9'] else EscapeChar(a[0])
  }

  function RestOf(a: string): string
    requires a != ""
  {
    if StartsWithSeparator(a) then a[3..] else a[1..]
  }

  lemma SameToken(a: string, b: string, x: string, y: string)
    requires a != "" && b != "" && TokenOf(a) + x == TokenOf(b) + y
    ensures x == y && (RestOf(a) == RestOf(b) ==> a == b)
  {
    var s, t := TokenOf(a), TokenOf(b);
    TokenKind(a[0]);
    TokenKind(b[0]);
    assert (s + x)[0] == s[0] && (t + y)[0] == t[0];
    if StartsWithSeparator(a) || StartsWithSeparator(b) {
      hide EscapeChar;
      assert |s| > 1 ==> (s + x)[1] == s[1];
      assert |t| > 1 ==> (t + y)[1] == t[1];
      assert |s| == 6 && |t| == 6;
      assert (s + x)[2] == s[2] && (t + y)[2] == t[2] && (s + x)[5] == s[5] && (t + y)[5] == t[5];
      SamePrefix(s, x, y);
      assert a == a[..3] + a[3..] && b == b[..3] + b[3..];
    } else {
      TokenUnique(a[0], b[0], x, y);
      assert a == [a[0]] + a[1..] && b == [b[0]] + b[1..];
    }
  }

  predicate IsDigit(c: char) {
    '0' <= c <= '9'
  }

  function Value(s: string): int {
    if s == "" then 0 else 10 * Value(s[..|s| - 1]) + (s[|s| - 1] as int - '0' as int)
  }

  lemma {:induction false} DigitsValue(n: nat)
    ensures Value(Digits(n)) == n && forall i :: 0 <= i < |Digits(n)| ==> IsDigit(Digits(n)[i])
  {
    var s := Digits(n);
    if n >= 10 {
      DigitsValue(n / 10);
      assert s[..|s| - 1] == Digits(n / 10);
    } else {
      assert s[..0] == "";
    }
  }

  predicate StartsPlain(x: string) {
    x != "" && !IsDigit(x[0])
  }

  /** A number ends where its digits do. */
  lemma NumberUnique(n: nat, m: nat, x: string, y: string)
    requires Decimal(n) + x == Decimal(m) + y && StartsPlain(x) && StartsPlain(y)
    ensures n == m && x == y
  {
    DigitsValue(n);
    DigitsValue(m);
    hide Digits, Value;
    var s, t := Digits(n), Digits(m);
    At(s, x, |s|);
    At(t, y, |s|);
    At(s, x, |t|);
    At(t, y, |t|);
    assert |s| == |t|;
    assert s == (s + x)[..|s|] && t == (t + y)[..|t|];
    SamePrefix(s, x, y);
  }

  lemma At(s: string, x: string, k: nat)
    requires k < |s + x|
    ensures (s + x)[k] == if k < |s| then s[k] else x[k - |s|]
  {}

  function BlockTail(b: Block, x: string): string {
    ",\"hash\":\"" + (Escape(b.hash) + "\"" + ("}" + x))
  }

  function BlockMiddle(b: Block, x: string): string {
    ",\"size\":" + (Decimal(b.size) + BlockTail(b, x))
  }

  lemma BlockShape(b: Block, x: string)
    ensures EncodeBlock(b) + x == "{\"offset\":" + (Decimal(b.offset) + BlockMiddle(b, x))
  {
    hide Escape, Decimal;
  }

  lemma BlockUnique(b: Block, c: Block, x: string, y: string)
    requires b.offset >= 0 && c.offset >= 0 && b.size >= 0 && c.size >= 0
    requires EncodeBlock(b) + x == EncodeBlock(c) + y
    ensures b == c && x == y
  {
    hide Escape, Decimal, EncodeBlock;
    BlockShape(b, x);
    BlockShape(c, y);
    SamePrefix("{\"offset\":", Decimal(b.offset) + BlockMiddle(b, x), Decimal(c.offset) + BlockMiddle(c, y));
    NumberUnique(b.offset, c.offset, BlockMiddle(b, x), BlockMiddle(c, y));
    SamePrefix(",\"size\":", Decimal(b.size) + BlockTail(b, x), Decimal(c.size) + BlockTail(c, y));
    NumberUnique(b.size, c.size, BlockTail(b, x), BlockTail(c, y));
    SamePrefix(",\"hash\":\"", Escape(b.hash) + "\"" + ("}" + x), Escape(c.hash) + "\"" + ("}" + y));
    StringUnique(b.hash, c.hash, "}" + x, "}" + y);
    SamePrefix("}", x, y);
  }

  predicate Measured(bs: seq<Block>) {
    forall i :: 0 <= i < |bs| ==> bs[i].offset >= 0 && bs[i].size >= 0
  }

  lemma {:induction false} BlocksFromFront(bs: seq<Block>)
    requires |bs| > 1
    ensures EncodeBlocks(bs) == EncodeBlock(bs[0]) + "," + EncodeBlocks(bs[1..])
  {
    hide EncodeBlock;
    var init := bs[..|bs| - 1];
    if |bs| > 2 {
      BlocksFromFront(init);
      assert init[1..] == bs[1..][..|bs| - 2];
    } else {
      assert EncodeBlocks(init) == EncodeBlock(bs[0]) && EncodeBlocks(bs[1..]) == EncodeBlock(bs[1]);
    }
  }

  /** What follows the first block of a list. */
  function AfterFirst(bs: seq<Block>, x: string): string
    requires bs != []
  {
    if |bs| == 1 then "]" + x else "," + (EncodeBlocks(bs[1..]) + "]" + x)
  }

  lemma ListShape(bs: seq<Block>, x: string)
    requires bs != []
    ensures EncodeBlocks(bs) + "]" + x == EncodeBlock(bs[0]) + AfterFirst(bs, x)
  {
    hide EncodeBlock;
    if |bs| > 1 {
      BlocksFromFront(bs);
      hide EncodeBlocks;
    }
  }

  lemma {:induction false} ListUnique(bs: seq<Block>, cs: seq<Block>, x: string, y: string)
    requires bs != [] && cs != [] && Measured(bs) && Measured(cs)
    requires EncodeBlocks(bs) + "]" + x == EncodeBlocks(cs) + "]" + y
    ensures bs == cs && x == y
  {
    hide EncodeBlock, EncodeBlocks;
    ListShape(bs, x);
    ListShape(cs, y);
    BlockUnique(bs[0], cs[0], AfterFirst(bs, x), AfterFirst(cs, y));
    assert AfterFirst(bs, x)[0] == if |bs| == 1 then ']' else ',';
    assert AfterFirst(cs, y)[0] == if |cs| == 1 then ']' else ',';
    if |bs| == 1 {
      SamePrefix("]", x, y);
    } else {
      SamePrefix(",", EncodeBlocks(bs[1..]) + "]" + x, EncodeBlocks(cs[1..]) + "]" + y);
      ListUnique(bs[1..], cs[1..], x, y);
      assert bs == [bs[0]] + bs[1..] && cs == [cs[0]] + cs[1..];
    }
  }

  function BlocksPart(e: Entry): string {
    if e.blocks == [] then "}" else ",\"blocks\":[" + (EncodeBlocks(e.blocks) + "]" + "}")
  }

  function HashPart(e: Entry): string {
    ",\"hash\":\"" + (Escape(e.hash) + "\"" + BlocksPart(e))
  }

  function ModePart(e: Entry): string {
    ",\"mode\":" + (Decimal(e.mode) + HashPart(e))
  }

  function SizePart(e: Entry): string {
    ",\"size\":" + (Decimal(e.size) + ModePart(e))
  }

  function KindPart(e: Entry): string {
    ",\"kind\":\"" + (Escape(e.kind) + "\"" + SizePart(e))
  }

  lemma Regroup(l: string, a: string, b: string, c: string)
    ensures l + a + b + c == l + (a + (b + c))
  {}

  lemma Regroup4(l: string, a: string, b: string, c: string, d: string)
    ensures l + a + b + c + d == l + (a + (b + c + d))
  {}

  lemma EntryShape(e: Entry)
    ensures EncodeEntry(e) == "{\"path\":\"" + (Escape(e.path) + "\"" + KindPart(e))
  {
    hide Escape, Decimal, EncodeBlocks;
    var p := "{\"path\":\"";
    var l1 := p + Escape(e.path);
    var l2 := l1 + "\",\"kind\":\"" + Escape(e.kind);
    var l3 := l2 + "\",\"size\":" + Decimal(e.size);
    var l4 := l3 + ",\"mode\":" + Decimal(e.mode);
    var l5 := l4 + ",\"hash\":\"" + Escape(e.hash) + "\"";
    EntryEnd(e, l5);
    hide EncodeEntry, BlocksPart;
    Regroup4(l4, ",\"hash\":\"", Escape(e.hash), "\"", BlocksPart(e));
    Regroup(l3, ",\"mode\":", Decimal(e.mode), HashPart(e));
    hide HashPart;
    Regroup(l2, "\",\"size\":", Decimal(e.size), ModePart(e));
    SplitQuote(",\"size\":", Decimal(e.size) + ModePart(e));
    hide ModePart;
    assert l3 + ModePart(e) == l2 + ("\"" + SizePart(e));
    Regroup(l1, "\",\"kind\":\"", Escape(e.kind), "\"" + SizePart(e));
    AddQuote(Escape(e.kind), SizePart(e));
    SplitQuote(",\"kind\":\"", Escape(e.kind) + "\"" + SizePart(e));
    hide SizePart;
    assert l2 + ("\"" + SizePart(e)) == l1 + ("\"" + KindPart(e));
    hide KindPart;
    AddQuote(Escape(e.path), KindPart(e));
    JoinTwo(p, Escape(e.path), "\"" + KindPart(e));
  }

  lemma EntryEnd(e: Entry, l5: string)
    requires l5 == "{\"path\":\"" + Escape(e.path) + "\",\"kind\":\"" + Escape(e.kind) + "\",\"size\":" + Decimal(e.size)
                   + ",\"mode\":" + Decimal(e.mode) + ",\"hash\":\"" + Escape(e.hash) + "\""
    ensures EncodeEntry(e) == l5 + BlocksPart(e)
  {
    hide Escape, Decimal, EncodeBlocks;
    if e.blocks != [] {
      Regroup4(l5, ",\"blocks\":[", EncodeBlocks(e.blocks), "]", "}");
      JoinTwo(l5, ",\"blocks\":[" + EncodeBlocks(e.blocks) + "]", "}");
      JoinThree(l5, ",\"blocks\":[", EncodeBlocks(e.blocks), "]");
    }
  }

  lemma SplitQuote(a: string, x: string)
    ensures ("\"" + a) + x == "\"" + (a + x)
  {}

  lemma AddQuote(a: string, x: string)
    ensures a + ("\"" + x) == a + "\"" + x
  {}

  lemma JoinTwo(l: string, a: string, x: string)
    ensures l + a + x == l + (a + x)
  {}

  lemma JoinThree(l: string, a: string, b: string, c: string)
    ensures l + (a + b + c) == l + a + b + c
  {}

  /** The stored and transmitted form of an entry determines it. */
  lemma EncodingIsInjective(a: Entry, b: Entry)
    requires a.size >= 0 && b.size >= 0 && Measured(a.blocks) && Measured(b.blocks)
    requires EncodeEntry(a) == EncodeEntry(b)
    ensures a == b
  {
    hide Escape, Decimal, EncodeBlocks, EncodeEntry, BlocksPart;
    EntryShape(a);
    EntryShape(b);
    SamePrefix("{\"path\":\"", Escape(a.path) + "\"" + KindPart(a), Escape(b.path) + "\"" + KindPart(b));
    StringUnique(a.path, b.path, KindPart(a), KindPart(b));
    SamePrefix(",\"kind\":\"", Escape(a.kind) + "\"" + SizePart(a), Escape(b.kind) + "\"" + SizePart(b));
    StringUnique(a.kind, b.kind, SizePart(a), SizePart(b));
    SamePrefix(",\"size\":", Decimal(a.size) + ModePart(a), Decimal(b.size) + ModePart(b));
    NumberUnique(a.size, b.size, ModePart(a), ModePart(b));
    SamePrefix(",\"mode\":", Decimal(a.mode) + HashPart(a), Decimal(b.mode) + HashPart(b));
    NumberUnique(a.mode, b.mode, HashPart(a), HashPart(b));
    SamePrefix(",\"hash\":\"", Escape(a.hash) + "\"" + BlocksPart(a), Escape(b.hash) + "\"" + BlocksPart(b));
    StringUnique(a.hash, b.hash, BlocksPart(a), BlocksPart(b));
    BlocksPartUnique(a, b);
  }

  lemma BlocksPartUnique(a: Entry, b: Entry)
    requires BlocksPart(a) == BlocksPart(b) && Measured(a.blocks) && Measured(b.blocks)
    ensures a.blocks == b.blocks
  {
    hide EncodeBlocks;
    assert BlocksPart(a)[0] == if a.blocks == [] then '}' else ',';
    assert BlocksPart(b)[0] == if b.blocks == [] then '}' else ',';
    if a.blocks != [] {
      SamePrefix(",\"blocks\":[", EncodeBlocks(a.blocks) + "]" + "}", EncodeBlocks(b.blocks) + "]" + "}");
      ListUnique(a.blocks, b.blocks, "}", "}");
    }
  }

  /** This covers everything that can be stored or sent. */
  lemma ValidIsMeasured(e: Entry)
    requires ValidEntry(e)
    ensures e.size >= 0 && Measured(e.blocks)
  {
    if e.kind == "file" {
      forall i | 0 <= i < |e.blocks| ensures e.blocks[i].offset >= 0 && e.blocks[i].size >= 0 {
        assert BlockAt(e.blocks[i], i, e.size);
      }
    }
  }

  /** The entry of a list frame is determined by the frame. */
  lemma FrameIsInjective(a: Entry, b: Entry)
    requires ValidEntry(a) && ValidEntry(b) && EncodeEntryMessage(a) == EncodeEntryMessage(b)
    ensures a == b
  {
    hide ValidEntry, EncodeEntry;
    ValidIsMeasured(a);
    ValidIsMeasured(b);
    var x, y := EncodeEntry(a) + "}", EncodeEntry(b) + "}";
    SamePrefix("{\"type\":\"entry\",\"entry\":", x, y) by {
      assert EncodeEntryMessage(a) == "{\"type\":\"entry\",\"entry\":" + x;
      assert EncodeEntryMessage(b) == "{\"type\":\"entry\",\"entry\":" + y;
    }
    assert EncodeEntry(a) == x[..|x| - 1] && EncodeEntry(b) == y[..|y| - 1];
    EncodingIsInjective(a, b);
  }

  /** Bytes that encoding/json never writes as they are. */
  predicate Unsafe(c: char) {
    (c as int) < 0x20 || c == '<' || c == '>' || c == '&'
  }

  /** The three bytes of a line or paragraph separator stand at i. */
  predicate SeparatorAt(e: string, i: nat) {
    i + 2 < |e| && e[i] as int == 0xE2 && e[i + 1] as int == 0x80 && 0xA8 <= e[i + 2] as int <= 0xA9
  }

  /** What is written contains no control byte, no markup byte, and no line or paragraph separator, ... */
  lemma {:induction false} EscapeIsSafe(s: string)
    ensures forall i :: 0 <= i < |Escape(s)| ==> !Unsafe(Escape(s)[i])
    ensures forall i: nat :: !SeparatorAt(Escape(s), i)
  {
    hide EscapeChar;
    if s != "" {
      var t, rest := Token(s);
      EscapeIsSafe(rest);
      TokenKind(s[0]);
      TokenIsSafe(s);
      var e := Escape(s);
      forall i: nat ensures !SeparatorAt(e, i) {
        if i >= |t| {
          assert !SeparatorAt(Escape(rest), i - |t|);
          assert forall k :: |t| <= k < |e| ==> e[k] == Escape(rest)[k - |t|];
        } else if |t| == 1 {
          SeparatorFromInput(s);
        }
      }
    }
  }

  lemma TokenIsSafe(s: string)
    requires s != ""
    ensures forall i :: 0 <= i < |TokenOf(s)| ==> !Unsafe(TokenOf(s)[i])
    ensures |TokenOf(s)| > 1 ==> forall i :: 0 <= i < |TokenOf(s)| ==> TokenOf(s)[i] as int < 0x80
  {
    TokenKind(s[0]);
    OrdinaryIsKept(s[0]);
  }

  /** ... and every other byte but the quote and the backslash is written as it is. */
  lemma OrdinaryIsKept(c: char)
    ensures EscapeChar(c) == [c] <==> !Unsafe(c) && c != '"' && c != '\\'
    ensures EscapeChar(c) != [c] ==> c as int < 0x80
  {}

  /** A byte of a longer character in the output is the next byte of the input. */
  lemma WideBytesStay(s: string)
    ensures var e := Escape(s);
            |e| > 0 && e[0] as int >= 0x80 ==> s != "" && s[0] == e[0] && e[1..] == Escape(s[1..])
  {
    if s != "" {
      TokenIsSafe(s);
      TokenKind(s[0]);
      var t, rest := Token(s);
    }
  }

  lemma SeparatorFromInput(s: string)
    requires s != "" && !StartsWithSeparator(s)
    ensures !SeparatorAt(Escape(s), 0)
  {
    hide EscapeChar;
    WideBytesStay(s);
    var e := Escape(s);
    if |e| > 0 && e[0] as int >= 0x80 {
      WideBytesStay(s[1..]);
      if |e| > 1 && e[1] as int >= 0x80 {
        assert e[1..][0] == e[1] && s[1..][0] == s[1];
        assert e[1..][1..] == e[2..] && s[1..][1..] == s[2..];
        WideBytesStay(s[2..]);
        assert |e| > 2 ==> e[2..][0] == e[2];
        assert |s| > 2 ==> s[2..][0] == s[2];
      }
    }
  }
}

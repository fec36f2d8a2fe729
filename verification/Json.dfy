/** The canonical JSON form of an entry, which both the index and the wire measure, and the
    size bounds that follow from validation. */
module Json {
  import opened Model
  import opened Layout

  const MAX_CONTROL: int := 4194304

  function Digits(n: nat): (s: string)
    ensures |s| > 0
  {
    if n < 10 then [('0' as int + n) as char]
    else Digits(n / 10) + [('0' as int + n % 10) as char]
  }

  function Decimal(n: int): string {
    if n < 0 then "-" + Digits(-n) else Digits(n)
  }

  function Pow10(k: nat): nat {
    if k == 0 then 1 else 10 * Pow10(k - 1)
  }

  lemma {:induction false} DigitCount(n: nat, k: nat)
    requires k > 0 && n < Pow10(k)
    ensures |Digits(n)| <= k
  {
    if n >= 10 {
      assert k > 1;
      DigitCount(n / 10, k - 1);
    }
  }

  function HexDigit(n: nat): char
    requires n < 16
  {
    "0123456789abcdef"[n]
  }

  /** The escape of one byte by encoding/json with HTML escaping. */
  function EscapeChar(c: char): (s: string)
    ensures 1 <= |s| <= 6
  {
    var n := c as int;
    if c == '"' || c == '\\' then ['\\', c]
    else if n == 8 then "\\b"
    else if n == 9 then "\\t"
    else if n == 10 then "\\n"
    else if n == 12 then "\\f"
    else if n == 13 then "\\r"
    else if n < 0x20 || c == '<' || c == '>' || c == '&' then "\\u00" + [HexDigit(n / 16), HexDigit(n % 16)]
    else [c]
  }

  /** The three bytes of the line and paragraph separators, which encoding/json escapes too. */
  predicate StartsWithSeparator(s: string) {
    |s| >= 3 && s[0] as int == 0xE2 && s[1] as int == 0x80 && (s[2] as int == 0xA8 || s[2] as int == 0xA9)
  }

  function Escape(s: string): string {
    if s == "" then ""
    else if StartsWithSeparator(s) then "\\u202" + [if s[2] as int == 0xA8 then '8' else '9'] + Escape(s[3..])
    else EscapeChar(s[0]) + Escape(s[1..])
  }

  lemma {:induction false} EscapeAtMostSixfold(s: string)
    ensures |Escape(s)| <= 6 * |s|
  {
    if s != "" {
      if StartsWithSeparator(s) {
        EscapeAtMostSixfold(s[3..]);
      } else {
        EscapeAtMostSixfold(s[1..]);
      }
    }
  }

  lemma {:induction false} EscapePlain(s: string)
    requires forall i :: 0 <= i < |s| ==> '0' <= s[i] <= '9' || 'a' <= s[i] <= 'z' || s[i] == '/'
    ensures Escape(s) == s
  {
    if s != "" {
      EscapePlain(s[1..]);
      assert s == [s[0]] + s[1..];
    }
  }

  function EncodeBlock(b: Block): string {
    "{\"offset\":" + Decimal(b.offset) + ",\"size\":" + Decimal(b.size) + ",\"hash\":\"" + Escape(b.hash) + "\"}"
  }

  function EncodeBlocks(bs: seq<Block>): string {
    if bs == [] then ""
    else if |bs| == 1 then EncodeBlock(bs[0])
    else EncodeBlocks(bs[..|bs| - 1]) + "," + EncodeBlock(bs[|bs| - 1])
  }

  function EncodeEntry(e: Entry): (s: string)
    ensures |s| > 0
  {
    "{\"path\":\"" + Escape(e.path) + "\",\"kind\":\"" + Escape(e.kind) + "\",\"size\":" + Decimal(e.size)
    + ",\"mode\":" + Decimal(e.mode) + ",\"hash\":\"" + Escape(e.hash) + "\""
    + (if e.blocks == [] then "" else ",\"blocks\":[" + EncodeBlocks(e.blocks) + "]") + "}"
  }

  /** length(manifest) of the row that stores e. */
  function ManifestLength(e: Entry): (n: int)
    ensures n > 0
  {
    |EncodeEntry(e)|
  }

  /** message{Type: "entry", Entry: &e}. */
  function EncodeEntryMessage(e: Entry): string {
    "{\"type\":\"entry\",\"entry\":" + EncodeEntry(e) + "}"
  }

  /** message{Type: "end"}. */
  const END_MESSAGE: string := "{\"type\":\"end\"}"

  /** A list frame costs 25 bytes more than the row it carries. */
  lemma EntryMessageLength(e: Entry)
    ensures |EncodeEntryMessage(e)| == ManifestLength(e) + 25
  {
    assert |"{\"type\":\"entry\",\"entry\":"| == 24;
  }

  lemma BlockLength(b: Block, i: int, size: int)
    requires 0 <= i && i * BLOCK_SIZE < size <= MAX_FILE_SIZE && BlockAt(b, i, size)
    ensures |EncodeBlock(b)| <= 109
  {
    assert Pow10(10) == 10000000000 && Pow10(6) == 1000000;
    DigitCount(b.offset, 10);
    DigitCount(b.size, 6);
    EscapePlain(b.hash);
  }

  lemma {:induction false} BlocksLength(bs: seq<Block>, size: int)
    requires 0 <= size <= MAX_FILE_SIZE && |bs| <= BlockCount(size)
    requires forall i :: 0 <= i < |bs| ==> BlockAt(bs[i], i, size)
    ensures |EncodeBlocks(bs)| <= 110 * |bs|
  {
    if bs != [] {
      BlockLength(bs[|bs| - 1], |bs| - 1, size);
      if |bs| > 1 {
        BlocksLength(bs[..|bs| - 1], size);
      }
    }
  }

  lemma KindLength(e: Entry)
    requires ValidEntry(e)
    ensures |Escape(e.kind)| <= 54 && |Escape(e.hash)| <= 384 && |Decimal(e.size)| <= 10 && |Decimal(e.mode)| <= 3
  {
    EscapeAtMostSixfold(e.kind);
    EscapeAtMostSixfold(e.hash);
    assert Pow10(10) == 10000000000 && Pow10(3) == 1000;
    DigitCount(e.size, 10);
    DigitCount(e.mode, 3);
  }

  /** No entry that validation accepts can exceed a control frame. */
  lemma ValidEntryFitsFrame(e: Entry)
    requires ValidEntry(e)
    ensures |EncodeEntryMessage(e)| <= 3640000 < MAX_CONTROL
  {
    EntryMessageLength(e);
    EscapeAtMostSixfold(e.path);
    KindLength(e);
    if e.kind == "file" {
      BlocksLength(e.blocks, e.size);
    }
    assert |"{\"path\":\""| == 9 && |"\",\"kind\":\""| == 10 && |"\",\"size\":"| == 9;
    assert |",\"mode\":"| == 8 && |",\"hash\":\""| == 9 && |",\"blocks\":["| == 11;
  }
}

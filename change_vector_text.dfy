/** The text form of a change vector, `DbId:Etag;` per entry, as
    ReplicationUtils.ChangeVectorToString writes it with Guid.ToString() and
    Int64.ToString(), and a reader for that form that undoes it exactly. */
module ChangeVectorText {
  import opened Wrappers
  import opened ChangeVectors

  // ---------------------------------------------------------------------
  // Guids: 32 lower-case hexadecimal digits in groups of 8-4-4-4-12
  // ---------------------------------------------------------------------

  function Pow16(n: nat): nat {
    if n == 0 then 1 else 16 * Pow16(n - 1)
  }

  lemma {:induction false} Pow16Add(a: nat, b: nat)
    ensures Pow16(a + b) == Pow16(a) * Pow16(b)
  {
    if a > 0 {
      Pow16Add(a - 1, b);
    }
  }

  /** 16^32 is 2^128, the number of distinct Guids. */
  lemma Pow16Of32()
    ensures Pow16(32) == 0x1_0000_0000_0000_0000_0000_0000_0000_0000
  {
    assert Pow16(4) == 0x1_0000;
    Pow16Add(4, 4);
    Pow16Add(8, 8);
    Pow16Add(16, 16);
  }

  function HexDigit(d: nat): char
    requires d < 16
  {
    "0123456789abcdef"[d]
  }

  function HexValue(c: char): Option<nat> {
    if '0' <= c <= '9' then Some(c as int - '0' as int)
    else if 'a' <= c <= 'f' then Some(c as int - 'a' as int + 10)
    else if 'A' <= c <= 'F' then Some(c as int - 'A' as int + 10)
    else None
  }

  /** The lowest `n` hexadecimal digits of `x`, most significant first. */
  function Hex(x: nat, n: nat): (s: string)
    ensures |s| == n
  {
    if n == 0 then "" else Hex(x / 16, n - 1) + [HexDigit(x % 16)]
  }

  function ParseHex(s: string): Option<nat> {
    if s == [] then Some(0)
    else
      match ParseHex(s[..|s| - 1])
      case None => None
      case Some(p) =>
        match HexValue(s[|s| - 1])
        case None => None
        case Some(d) => Some(p * 16 + d)
  }

  lemma {:induction false} ParseHexRoundTrip(x: nat, n: nat)
    requires x < Pow16(n)
    ensures ParseHex(Hex(x, n)) == Some(x)
  {
    if n > 0 {
      assert x / 16 < Pow16(n - 1);
      ParseHexRoundTrip(x / 16, n - 1);
      var s := Hex(x, n);
      assert s[..|s| - 1] == Hex(x / 16, n - 1);
      assert HexValue(HexDigit(x % 16)) == Some(x % 16);
    }
  }

  /** The number of hexadecimal digits in a Guid. */
  const GuidDigits: nat := 32

  /** 32 digits split into groups of 8-4-4-4-12 by dashes. */
  function Dashed(h: string): (s: string)
    requires |h| == GuidDigits
    ensures |s| == 36
  {
    h[..8] + "-" + h[8..12] + "-" + h[12..16] + "-" + h[16..20] + "-" + h[20..]
  }

  /** The dashes sit at 8, 13, 18 and 23, and dropping them gives back the digits. */
  lemma Undash(h: string)
    requires |h| == GuidDigits
    ensures var s := Dashed(h);
      && s[8] == '-' && s[13] == '-' && s[18] == '-' && s[23] == '-'
      && s[..8] + s[9..13] + s[14..18] + s[19..23] + s[24..] == h
  {
    var s := Dashed(h);
    assert s[..8] == h[..8];
    assert s[9..13] == h[8..12];
    assert s[14..18] == h[12..16];
    assert s[19..23] == h[16..20];
    assert s[24..] == h[20..];
    assert h == h[..8] + h[8..12] + h[12..16] + h[16..20] + h[20..];
  }

  /** Guid.ToString(): the "D" format. */
  function GuidText(g: Guid): (s: string)
    ensures |s| == 36
  {
    Dashed(Hex(g, GuidDigits))
  }

  function ParseGuid(s: string): Option<Guid> {
    if |s| != 36 || s[8] != '-' || s[13] != '-' || s[18] != '-' || s[23] != '-' then None
    else
      match ParseHex(s[..8] + s[9..13] + s[14..18] + s[19..23] + s[24..])
      case None => None
      case Some(x) =>
        if x < 0x1_0000_0000_0000_0000_0000_0000_0000_0000 then Some(x) else None
  }

  lemma ParseGuidRoundTrip(g: Guid)
    ensures ParseGuid(GuidText(g)) == Some(g)
  {
    var h := Hex(g, GuidDigits);
    Pow16Of32();
    ParseHexRoundTrip(g, GuidDigits);
    Undash(h);
  }

  /** Distinct ids have distinct texts. */
  lemma GuidTextInjective(a: Guid, b: Guid)
    requires GuidText(a) == GuidText(b)
    ensures a == b
  {
    ParseGuidRoundTrip(a);
    ParseGuidRoundTrip(b);
  }

  // ---------------------------------------------------------------------
  // Etags: decimal, with a leading '-' when negative
  // ---------------------------------------------------------------------

  function DigitChar(d: nat): char
    requires d < 10
  {
    (d + '0' as int) as char
  }

  /** The decimal digits of `n`, without leading zeros. */
  function Digits(n: nat): (s: string)
    ensures |s| >= 1 && forall i :: 0 <= i < |s| ==> '0' <= s[i] <= '9'
  {
    if n < 10 then [DigitChar(n)] else Digits(n / 10) + [DigitChar(n % 10)]
  }

  function ParseDigits(s: string): Option<nat> {
    if s == [] || !('0' <= s[|s| - 1] <= '9') then None
    else
      var d := s[|s| - 1] as int - '0' as int;
      if |s| == 1 then Some(d)
      else
        match ParseDigits(s[..|s| - 1])
        case None => None
        case Some(p) => Some(p * 10 + d)
  }

  lemma {:induction false} ParseDigitsRoundTrip(n: nat)
    ensures ParseDigits(Digits(n)) == Some(n)
  {
    if n >= 10 {
      ParseDigitsRoundTrip(n / 10);
      var s := Digits(n);
      assert s[..|s| - 1] == Digits(n / 10);
    }
  }

  /** Int64.ToString(). */
  function Int64Text(x: Int64): (s: string)
    ensures |s| >= 1 && forall i :: 0 <= i < |s| ==> s[i] != ';'
  {
    if x < 0 then "-" + Digits(-(x as int)) else Digits(x)
  }

  function ParseInt64(s: string): Option<Int64> {
    if s != [] && s[0] == '-' then
      match ParseDigits(s[1..])
      case None => None
      case Some(n) => if n <= 0x8000_0000_0000_0000 then Some(-(n as int)) else None
    else
      match ParseDigits(s)
      case None => None
      case Some(n) => if n < 0x8000_0000_0000_0000 then Some(n) else None
  }

  lemma ParseInt64RoundTrip(x: Int64)
    ensures ParseInt64(Int64Text(x)) == Some(x)
  {
    var s := Int64Text(x);
    if x < 0 {
      var n := -(x as int);
      ParseDigitsRoundTrip(n);
      assert s == "-" + Digits(n);
      assert s[0] == '-' && s[1..] == Digits(n);
    } else {
      ParseDigitsRoundTrip(x);
      assert s == Digits(x);
      assert '0' <= s[0] <= '9';
    }
  }

  // ---------------------------------------------------------------------
  // Whole vectors
  // ---------------------------------------------------------------------

  /** `{DbId}:{Etag};` for one entry. */
  function EntryText(e: Entry): string {
    GuidText(e.dbId) + ":" + Int64Text(e.etag) + ";"
  }

  /** The strings of `parts` joined in order, as a StringBuilder collects them. */
  function Concat(parts: seq<string>): string {
    if parts == [] then "" else Concat(parts[..|parts| - 1]) + parts[|parts| - 1]
  }

  lemma {:induction false} ConcatCons(p: string, parts: seq<string>)
    ensures Concat([p] + parts) == p + Concat(parts)
  {
    var w := [p] + parts;
    if parts == [] {
      assert w[..|w| - 1] == [];
    } else {
      var init := parts[..|parts| - 1];
      assert w[..|w| - 1] == [p] + init;
      ConcatCons(p, init);
    }
  }

  /** The text of every entry, in order. */
  function Texts(v: seq<Entry>): (r: seq<string>)
    ensures |r| == |v| && forall i :: 0 <= i < |v| ==> r[i] == EntryText(v[i])
  {
    seq(|v|, i requires 0 <= i < |v| => EntryText(v[i]))
  }

  /** The entries' texts concatenated in order; the empty vector gives "". */
  function Format(v: seq<Entry>): string {
    Concat(Texts(v))
  }

  lemma FormatCons(e: Entry, v: seq<Entry>)
    ensures Format([e] + v) == EntryText(e) + Format(v)
  {
    assert Texts([e] + v) == [EntryText(e)] + Texts(v);
    ConcatCons(EntryText(e), Texts(v));
  }

  lemma FormatSnoc(v: seq<Entry>, e: Entry)
    ensures Format(v + [e]) == Format(v) + EntryText(e)
  {
    var t := Texts(v + [e]);
    assert t[..|t| - 1] == Texts(v);
  }

  /** The first ';' at or after position `i`, or |s| when there is none. */
  function NextSemicolon(s: string, i: nat): (k: nat)
    requires i <= |s|
    ensures i <= k <= |s| && (k < |s| ==> s[k] == ';')
    ensures forall j :: i <= j < k ==> s[j] != ';'
    decreases |s| - i
  {
    if i == |s| || s[i] == ';' then i else NextSemicolon(s, i + 1)
  }

  /** Reads the text form back into entries; None for a malformed text. */
  function Parse(s: string): Option<seq<Entry>>
    decreases |s|
  {
    if s == [] then Some([])
    else if |s| < 38 || s[36] != ':' then None
    else
      match ParseGuid(s[..36])
      case None => None
      case Some(g) =>
        var k := NextSemicolon(s, 37);
        if k == |s| then None
        else
          match ParseInt64(s[37..k])
          case None => None
          case Some(e) =>
            match Parse(s[k + 1..])
            case None => None
            case Some(rest) => Some([Entry(g, e)] + rest)
  }

  /** Where the pieces of `g:t;r` sit, when `g` has 36 characters and `t`
      holds no ';'. */
  lemma EntryPieces(g: string, t: string, r: string)
    requires |g| == 36 && |t| >= 1 && forall i :: 0 <= i < |t| ==> t[i] != ';'
    ensures var s := g + ":" + t + ";" + r;
      && |s| >= 38 && s[..36] == g && s[36] == ':'
      && NextSemicolon(s, 37) == 37 + |t| && s[37..37 + |t|] == t && s[38 + |t|..] == r
  {
    var s := g + ":" + t + ";" + r;
    var k := 37 + |t|;
    assert s[k] == ';';
    assert forall j :: 37 <= j < k ==> s[j] == t[j - 37];
    assert s[..36] == g;
    assert s[37..k] == t;
    assert s[k + 1..] == r;
  }

  /** Reading one entry's text in front of a text reads that entry, then the rest. */
  lemma ParseEntry(e: Entry, r: string)
    ensures Parse(EntryText(e) + r) ==
      match Parse(r)
      case None => None
      case Some(rest) => Some([e] + rest)
  {
    var g, t := GuidText(e.dbId), Int64Text(e.etag);
    EntryPieces(g, t, r);
    assert EntryText(e) + r == g + ":" + t + ";" + r;
    ParseGuidRoundTrip(e.dbId);
    ParseInt64RoundTrip(e.etag);
  }

  /** Reading the text form of a vector gives back that vector. */
  lemma {:induction false} ParseFormat(v: seq<Entry>)
    ensures Parse(Format(v)) == Some(v)
  {
    if v != [] {
      assert v == [v[0]] + v[1..];
      FormatCons(v[0], v[1..]);
      ParseEntry(v[0], Format(v[1..]));
      ParseFormat(v[1..]);
    } else {
      assert Texts(v) == [];
    }
  }

  /** Different vectors never share a text form. */
  lemma FormatInjective(v: seq<Entry>, w: seq<Entry>)
    requires Format(v) == Format(w)
    ensures v == w
  {
    ParseFormat(v);
    ParseFormat(w);
  }
}

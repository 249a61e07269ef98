/**
 * The Rust standard-library string operations the puzzles rely on:
 * `str::lines`, `str::split`, `str::split_once`, `str::split_whitespace`,
 * `usize::from_str` (`parse`), `usize::to_string`, `str::as_bytes` and
 * `str::len` (UTF-8), and the `char as u8` cast.
 * Each is given by a recursive definition and tied to an inverse or a
 * characterising property.
 */
module Text {
  import opened Common

  // ---------------------------------------------------------------------------
  // Characters and bytes
  // ---------------------------------------------------------------------------

  /** `c as u8`: the character code truncated to its low eight bits. */
  function CharToByte(c: char): (b: byte)
    ensures (c as int) < 256 ==> b == c as int
  {
    (c as int) % 256
  }

  /** `chars().map(|c| c as u8)`: each character cast to a byte. */
  function ToBytes(line: string): (bs: seq<byte>)
    ensures |bs| == |line|
    ensures forall i :: 0 <= i < |line| ==> bs[i] == CharToByte(line[i])
  {
    if |line| == 0 then [] else ToBytes(line[..|line| - 1]) + [CharToByte(line[|line| - 1])]
  }

  predicate IsAscii(c: char) {
    (c as int) < 0x80
  }

  predicate AllAscii(s: string) {
    forall i :: 0 <= i < |s| ==> IsAscii(s[i])
  }

  /** A UTF-8 continuation byte carrying the six bits `v`. */
  function Cont(v: int): byte
    requires 0 <= v < 0x40
  {
    0x80 + v
  }

  /** The number of bytes UTF-8 spends on a character: one, two, three or four by code point range. */
  function Utf8Length(c: char): nat {
    var n := c as int;
    if n < 0x80 then 1 else if n < 0x800 then 2 else if n < 0x1_0000 then 3 else 4
  }

  /**
   * The UTF-8 encoding of one character (section 3 of RFC 3629): one byte
   * below U+0080, then two, three or four bytes; the lead byte announces the
   * length and every further byte is a continuation byte.
   */
  function Utf8(c: char): (bs: seq<byte>)
    ensures |bs| == Utf8Length(c) && 1 <= |bs| <= 4
    ensures |bs| == 1 <==> IsAscii(c)
    ensures IsAscii(c) ==> bs == [c as int]
    ensures forall k :: 1 <= k < |bs| ==> 0x80 <= bs[k] < 0xC0
  {
    var n := c as int;
    if n < 0x80 then [n]
    else if n < 0x800 then [0xC0 + n / 0x40, Cont(n % 0x40)]
    else if n < 0x1_0000 then [0xE0 + n / 0x1000, Cont(n / 0x40 % 0x40), Cont(n % 0x40)]
    else [0xF0 + n / 0x4_0000, Cont(n / 0x1000 % 0x40), Cont(n / 0x40 % 0x40), Cont(n % 0x40)]
  }

  /** The length a lead byte announces. */
  function SeqLength(lead: byte): nat {
    if lead < 0x80 then 1 else if lead < 0xE0 then 2 else if lead < 0xF0 then 3 else 4
  }

  /** The code point a well-formed byte sequence of one character spells. */
  function CodePoint(bs: seq<byte>): int
    requires 1 <= |bs| <= 4
  {
    var b := seq(|bs|, i requires 0 <= i < |bs| => bs[i] as int);
    if |bs| == 1 then b[0]
    else if |bs| == 2 then (b[0] - 0xC0) * 0x40 + (b[1] - 0x80)
    else if |bs| == 3 then (b[0] - 0xE0) * 0x1000 + (b[1] - 0x80) * 0x40 + (b[2] - 0x80)
    else (b[0] - 0xF0) * 0x4_0000 + (b[1] - 0x80) * 0x1000 + (b[2] - 0x80) * 0x40 + (b[3] - 0x80)
  }

  /** The lead byte of a character's encoding announces its length, and the bytes spell the character back. */
  lemma Utf8Decodes(c: char)
    ensures SeqLength(Utf8(c)[0]) == |Utf8(c)|
    ensures CodePoint(Utf8(c)) == c as int
  {
    var n := c as int;
    if n >= 0x1_0000 {
      var a, b, d, e := n / 0x4_0000, n / 0x1000 % 0x40, n / 0x40 % 0x40, n % 0x40;
      assert n / 0x1000 == a * 0x40 + b;
      assert n / 0x40 == (n / 0x1000) * 0x40 + d;
      assert n == (n / 0x40) * 0x40 + e;
    } else if n >= 0x800 {
      assert n / 0x40 == (n / 0x1000) * 0x40 + n / 0x40 % 0x40;
    }
  }

  /** `str::len`: the length of the text in UTF-8 bytes, not in characters. */
  function ByteLength(s: string): nat {
    if |s| == 0 then 0 else Utf8Length(s[0]) + ByteLength(s[1..])
  }

  /** `str::as_bytes`: the UTF-8 encoding of the text, character after character. */
  function AsBytes(s: string): (bs: seq<byte>)
    ensures |bs| == ByteLength(s) && |bs| >= |s|
    ensures |bs| == 0 <==> |s| == 0
  {
    if |s| == 0 then [] else Utf8(s[0]) + AsBytes(s[1..])
  }

  /** Decoding UTF-8 bytes into code points, one lead byte at a time; `None` when a sequence is cut short. */
  function Decode(bs: seq<byte>): Option<seq<int>>
    decreases |bs|
  {
    if |bs| == 0 then Some([])
    else
      var k := SeqLength(bs[0]);
      if |bs| < k then None
      else match Decode(bs[k..])
        case None => None
        case Some(rest) => Some([CodePoint(bs[..k])] + rest)
  }

  /** The code points of the characters, in order. */
  function CodePoints(s: string): (cps: seq<int>)
    ensures |cps| == |s|
    ensures forall i :: 0 <= i < |s| ==> cps[i] == s[i] as int
  {
    if |s| == 0 then [] else [s[0] as int] + CodePoints(s[1..])
  }

  /** `as_bytes` loses nothing: decoding the bytes gives back every character's code point, in order. */
  lemma {:induction false} DecodeAsBytes(s: string)
    ensures Decode(AsBytes(s)) == Some(CodePoints(s))
  {
    if |s| > 0 {
      var u, bs := Utf8(s[0]), AsBytes(s);
      Utf8Decodes(s[0]);
      assert bs[0] == u[0] && bs[..|u|] == u && bs[|u|..] == AsBytes(s[1..]);
      DecodeAsBytes(s[1..]);
    }
  }

  /** On ASCII text `as_bytes` is the per-character cast, one byte per character. */
  lemma {:induction false} AsBytesAscii(s: string)
    requires AllAscii(s)
    ensures AsBytes(s) == ToBytes(s)
  {
    if |s| > 0 {
      AsBytesAscii(s[1..]);
      assert AsBytes(s) == [s[0] as int] + ToBytes(s[1..]);
    }
  }

  /** Text with a character beyond ASCII has more bytes than characters. */
  lemma {:induction false} AsBytesLonger(s: string, i: nat)
    requires i < |s| && !IsAscii(s[i])
    ensures |AsBytes(s)| > |s|
  {
    if i > 0 {
      AsBytesLonger(s[1..], i - 1);
    }
  }

  /** "é9": the accented letter takes two bytes, so `as_bytes` is not the per-character cast. */
  lemma AccentExample()
    ensures AsBytes("é9") == [0xC3, 0xA9, 0x39]
    ensures ToBytes("é9") == [0xE9, 0x39]
  {
    assert "é9"[1..] == "9" && "9"[1..] == "";
  }

  /** `char::is_whitespace`: the Unicode White_Space property. */
  predicate IsWhitespace(c: char) {
    var n := c as int;
    || 0x09 <= n <= 0x0D
    || n == 0x20 || n == 0x85 || n == 0xA0 || n == 0x1680
    || 0x2000 <= n <= 0x200A
    || n == 0x2028 || n == 0x2029 || n == 0x202F || n == 0x205F || n == 0x3000
  }

  predicate NoWhitespace(s: string) {
    forall i :: 0 <= i < |s| ==> !IsWhitespace(s[i])
  }

  /** Position of the first occurrence of `c` in `s`. */
  function IndexOf(s: string, c: char): (i: nat)
    requires c in s
    ensures i < |s| && s[i] == c && c !in s[..i]
  {
    if s[0] == c then 0 else 1 + IndexOf(s[1..], c)
  }

  // ---------------------------------------------------------------------------
  // split / join
  // ---------------------------------------------------------------------------

  /** `s.split(c)`: always at least one piece; no piece contains `c`. */
  function Split(s: string, c: char): (ps: seq<string>)
    ensures |ps| >= 1
    ensures forall i :: 0 <= i < |ps| ==> c !in ps[i]
    ensures c !in s ==> ps == [s]
    decreases |s|
  {
    if c !in s then [s]
    else
      var i := IndexOf(s, c);
      [s[..i]] + Split(s[i + 1..], c)
  }

  /** The pieces glued back together with `c` between neighbours. */
  function Join(ps: seq<string>, c: char): (s: string)
    ensures |ps| == 1 ==> s == ps[0]
  {
    if |ps| == 0 then []
    else if |ps| == 1 then ps[0]
    else ps[0] + [c] + Join(ps[1..], c)
  }

  lemma {:induction false} JoinSplit(s: string, c: char)
    ensures Join(Split(s, c), c) == s
    decreases |s|
  {
    if c in s {
      var i := IndexOf(s, c);
      var p, q := s[..i], s[i + 1..];
      assert s == p + [c] + q;
      SplitUnfold(p, c, q);
      JoinSplit(q, c);
      var ps := [p] + Split(q, c);
      assert ps[1..] == Split(q, c);
      assert Join(ps, c) == p + [c] + Join(Split(q, c), c);
    }
  }

  lemma {:induction false} SplitJoin(ps: seq<string>, c: char)
    requires |ps| >= 1
    requires forall i :: 0 <= i < |ps| ==> c !in ps[i]
    ensures Split(Join(ps, c), c) == ps
    decreases |ps|
  {
    if |ps| > 1 {
      var rest := Join(ps[1..], c);
      assert Join(ps, c) == ps[0] + [c] + rest;
      SplitUnfold(ps[0], c, rest);
      SplitJoin(ps[1..], c);
      assert ps == [ps[0]] + ps[1..];
    }
  }

  /** The first `c` in `p + [c] + q` is the one right after `p` when `p` has none. */
  lemma IndexAfterPrefix(p: string, c: char, q: string)
    requires c !in p
    ensures IndexOf(p + [c] + q, c) == |p|
  {
    var s := p + [c] + q;
    assert s[|p|] == c;
    var i := IndexOf(s, c);
    assert forall j :: 0 <= j < |p| ==> s[j] == p[j];
  }

  /** `split` peels off the text before the first separator. */
  lemma SplitUnfold(p: string, c: char, q: string)
    requires c !in p
    ensures Split(p + [c] + q, c) == [p] + Split(q, c)
  {
    var s := p + [c] + q;
    assert s[|p|] == c;
    IndexAfterPrefix(p, c, q);
    assert s[..|p|] == p;
    assert s[|p| + 1..] == q;
  }

  /** `s.split_once(c)`: the text before and after the first `c`. */
  function SplitOnce(s: string, c: char): (r: Option<(string, string)>)
    ensures r.Some? <==> c in s
    ensures r.Some? ==> r.value.0 + [c] + r.value.1 == s && c !in r.value.0
  {
    if c !in s then None
    else
      var i := IndexOf(s, c);
      assert s == s[..i] + [c] + s[i + 1..];
      Some((s[..i], s[i + 1..]))
  }

  lemma SplitOnceJoin(p: string, c: char, q: string)
    requires c !in p
    ensures SplitOnce(p + [c] + q, c) == Some((p, q))
  {
    var s := p + [c] + q;
    assert s[|p|] == c;
    IndexAfterPrefix(p, c, q);
    assert s[..|p|] == p;
    assert s[|p| + 1..] == q;
  }

  // ---------------------------------------------------------------------------
  // lines
  // ---------------------------------------------------------------------------

  /** Drops one trailing carriage return. */
  function StripCr(t: string): (r: string)
    ensures '\r' !in t ==> r == t
  {
    if |t| > 0 && t[|t| - 1] == '\r' then t[..|t| - 1] else t
  }

  /**
   * `s.lines()`: split at every `\n`, dropping a `\r` right before it; a
   * final `\n` does not start an extra empty line, and an empty string has
   * no lines at all.
   */
  function Lines(s: string): (ls: seq<string>)
    ensures forall i :: 0 <= i < |ls| ==> '\n' !in ls[i]
    ensures |s| == 0 <==> |ls| == 0
    decreases |s|
  {
    if |s| == 0 then []
    else if '\n' !in s then [s]
    else
      var i := IndexOf(s, '\n');
      assert '\n' !in StripCr(s[..i]) by {
        assert forall j :: 0 <= j < |StripCr(s[..i])| ==> StripCr(s[..i])[j] == s[..i][j];
      }
      [StripCr(s[..i])] + Lines(s[i + 1..])
  }

  /** `lines` peels off the text before the first newline. */
  lemma LinesUnfold(p: string, q: string)
    requires '\n' !in p && '\r' !in p
    ensures Lines(p + "\n" + q) == [p] + Lines(q)
  {
    var s := p + "\n" + q;
    assert s[|p|] == '\n';
    IndexAfterPrefix(p, '\n', q);
    assert s[..|p|] == p;
    assert s[|p| + 1..] == q;
  }

  /** The final newline of `s`, if it has one. */
  function Terminator(s: string): string {
    if |s| > 0 && s[|s| - 1] == '\n' then "\n" else ""
  }

  /** `s` without its final newline. */
  function Unterminated(s: string): (b: string)
    ensures b + Terminator(s) == s
  {
    if |s| > 0 && s[|s| - 1] == '\n' then s[..|s| - 1] else s
  }

  /** Only the last line's terminator is dropped. */
  lemma UnterminatedCons(p: string, q: string)
    requires |q| > 0
    ensures Unterminated(p + "\n" + q) == p + "\n" + Unterminated(q)
  {
    var s := p + "\n" + q;
    assert s[|s| - 1] == q[|q| - 1];
    if q[|q| - 1] == '\n' {
      assert s[..|s| - 1] == p + "\n" + q[..|q| - 1];
    }
  }

  /** Without carriage returns, `lines` is `split('\n')` of the text minus a final terminator. */
  lemma {:induction false} LinesAsSplit(s: string)
    requires '\r' !in s
    requires |s| > 0
    ensures Lines(s) == Split(Unterminated(s), '\n')
    decreases |s|
  {
    if '\n' in s {
      var i := IndexOf(s, '\n');
      var p, q := s[..i], s[i + 1..];
      assert s == p + "\n" + q;
      assert '\r' !in p && '\r' !in q;
      LinesUnfold(p, q);
      if |q| == 0 {
        assert Unterminated(s) == p;
      } else {
        LinesAsSplit(q);
        UnterminatedCons(p, q);
        SplitUnfold(p, '\n', Unterminated(q));
      }
    }
  }

  /** Rejoining the lines of carriage-return-free text restores it. */
  lemma LinesRoundTrip(s: string)
    requires '\r' !in s
    ensures Join(Lines(s), '\n') + Terminator(s) == s
  {
    if |s| > 0 {
      LinesAsSplit(s);
      JoinSplit(Unterminated(s), '\n');
    }
  }

  /** Newline-terminated lines read back as themselves. */
  lemma LinesOfJoin(ls: seq<string>)
    requires |ls| >= 1
    requires forall i :: 0 <= i < |ls| ==> '\n' !in ls[i] && '\r' !in ls[i]
    ensures Lines(Join(ls, '\n') + "\n") == ls
  {
    var body := Join(ls, '\n');
    var s := body + "\n";
    JoinNoCr(ls);
    assert Unterminated(s) == body;
    assert '\r' !in s by { assert forall j :: 0 <= j < |body| ==> s[j] == body[j]; }
    LinesAsSplit(s);
    SplitJoin(ls, '\n');
  }

  lemma {:induction false} JoinNoCr(ls: seq<string>)
    requires forall i :: 0 <= i < |ls| ==> '\r' !in ls[i]
    ensures '\r' !in Join(ls, '\n')
    decreases |ls|
  {
    if |ls| > 1 {
      JoinNoCr(ls[1..]);
    }
  }

  // ---------------------------------------------------------------------------
  // split_whitespace
  // ---------------------------------------------------------------------------

  /** Length of the leading run of non-whitespace characters. */
  function RunLength(s: string): (n: nat)
    ensures n <= |s|
    ensures NoWhitespace(s[..n])
    ensures n < |s| ==> IsWhitespace(s[n])
  {
    if |s| == 0 || IsWhitespace(s[0]) then 0
    else
      var n := 1 + RunLength(s[1..]);
      assert forall j :: 1 <= j < n ==> s[..n][j] == s[1..][..n - 1][j - 1];
      n
  }

  /** `s.split_whitespace()`: the maximal non-empty runs of non-whitespace. */
  function SplitWhitespace(s: string): (ts: seq<string>)
    ensures forall i :: 0 <= i < |ts| ==> |ts[i]| > 0 && NoWhitespace(ts[i])
    ensures NoWhitespace(s) && |s| > 0 ==> ts == [s]
    decreases |s|
  {
    if |s| == 0 then []
    else if IsWhitespace(s[0]) then SplitWhitespace(s[1..])
    else
      var n := RunLength(s);
      assert n > 0;
      assert NoWhitespace(s) ==> n == |s| && s[..n] == s && s[n..] == [];
      [s[..n]] + SplitWhitespace(s[n..])
  }

  /** Tokens separated by single spaces split back into themselves. */
  lemma {:induction false} SplitWhitespaceJoin(ts: seq<string>)
    requires |ts| >= 1
    requires forall i :: 0 <= i < |ts| ==> |ts[i]| > 0 && NoWhitespace(ts[i])
    ensures SplitWhitespace(Join(ts, ' ')) == ts
    decreases |ts|
  {
    var s := Join(ts, ' ');
    if |ts| > 1 {
      var rest := Join(ts[1..], ' ');
      assert s == ts[0] + " " + rest;
      assert s[0] == ts[0][0];
      RunOfPrefix(ts[0], ' ', rest);
      assert s[..|ts[0]|] == ts[0];
      var tail := s[|ts[0]|..];
      assert tail == " " + rest;
      assert SplitWhitespace(tail) == SplitWhitespace(rest) by {
        assert IsWhitespace(tail[0]);
        assert tail[1..] == rest;
      }
      SplitWhitespaceJoin(ts[1..]);
    }
  }

  lemma RunOfPrefix(t: string, c: char, q: string)
    requires NoWhitespace(t) && IsWhitespace(c)
    ensures RunLength(t + [c] + q) == |t|
    decreases |t|
  {
    if |t| > 0 {
      assert (t + [c] + q)[1..] == t[1..] + [c] + q;
      RunOfPrefix(t[1..], c, q);
    }
  }

  // ---------------------------------------------------------------------------
  // Decimal numbers
  // ---------------------------------------------------------------------------

  const EMPTY_NUMBER := "cannot parse integer from empty string"
  const INVALID_DIGIT := "invalid digit found in string"

  predicate IsDigitChar(c: char) {
    '0' <= c <= '9'
  }

  predicate AllDigits(s: string) {
    forall i :: 0 <= i < |s| ==> IsDigitChar(s[i])
  }

  /** The value of a digit string, most significant digit first. */
  function DigitsValue(s: string): nat
    requires AllDigits(s)
  {
    if |s| == 0 then 0
    else DigitsValue(s[..|s| - 1]) * 10 + (s[|s| - 1] as int - '0' as int)
  }

  /**
   * `s.parse::<usize>()`: an optional leading `+` followed by one or more
   * decimal digits; anything else is an error with the standard message.
   */
  function ParseNat(s: string): (r: Result<nat>)
    ensures |s| == 0 <==> r == Err(EMPTY_NUMBER)
    ensures r.Ok? <==> (|s| > 0 && AllDigits(s)) || (|s| > 1 && s[0] == '+' && AllDigits(s[1..]))
    ensures |s| > 0 && AllDigits(s) ==> r == Ok(DigitsValue(s))
    ensures r.Err? && |s| > 0 ==> r.msg == INVALID_DIGIT
  {
    if |s| == 0 then Err(EMPTY_NUMBER)
    else if s[0] == '+' && |s| == 1 then Err(INVALID_DIGIT)
    else
      var digits := if s[0] == '+' then s[1..] else s;
      if AllDigits(digits) then Ok(DigitsValue(digits)) else Err(INVALID_DIGIT)
  }

  function DigitChar(d: nat): (c: char)
    requires d < 10
    ensures IsDigitChar(c) && c as int - '0' as int == d
  {
    ('0' as int + d) as char
  }

  /** `n.to_string()`: decimal digits without leading zeros. */
  function ToDecimal(n: nat): (s: string)
    ensures |s| > 0 && AllDigits(s)
    ensures |s| > 1 ==> s[0] != '0'
  {
    if n < 10 then [DigitChar(n)]
    else ToDecimal(n / 10) + [DigitChar(n % 10)]
  }

  lemma {:induction false} DecimalValue(n: nat)
    ensures DigitsValue(ToDecimal(n)) == n
  {
    if n >= 10 {
      var s := ToDecimal(n);
      assert s[..|s| - 1] == ToDecimal(n / 10);
      DecimalValue(n / 10);
    }
  }

  /** Parsing the printed form of a number gives the number back. */
  lemma ParseDecimal(n: nat)
    ensures ParseNat(ToDecimal(n)) == Ok(n)
  {
    DecimalValue(n);
  }
}

/** The text codecs of a/to_do/util.c: bytes as hex digits, and colons behind backslashes. */
module Codec {
  import opened Dictionary

  type Byte = b: int | 0 <= b < 0x100

  // ----- Hex -----

  function Digit(n: int): char
    requires 0 <= n < 16
  {
    if n < 10 then '0' + n as char else 'a' + (n - 10) as char
  }

  predicate IsHex(c: char) {
    '0' <= c <= '9' || 'a' <= c <= 'f' || 'A' <= c <= 'F'
  }

  function DigitValue(c: char): (n: int)
    requires IsHex(c)
    ensures 0 <= n < 16
  {
    if c <= '9' then c as int - '0' as int
    else if c <= 'F' then c as int - 'A' as int + 10
    else c as int - 'a' as int + 10
  }

  /** mem2hex: "%02x" of every byte. */
  function Encode(bytes: seq<Byte>): string {
    if bytes == [] then []
    else [Digit(bytes[0] / 16), Digit(bytes[0] % 16)] + Encode(bytes[1..])
  }

  predicate IsSpace(c: char) {
    c == ' ' || '\t' <= c <= '\r'
  }

  const ULONG_MAX: int := 0xFFFF_FFFF_FFFF_FFFF

  /** strtoul in base 16 on a string of two characters: blanks, a sign, then digits as far as
      they go.  A `0x` prefix needs a third character. */
  function StrToUl(a: char, b: char): int {
    if IsHex(a) then
      if IsHex(b) then 16 * DigitValue(a) + DigitValue(b) else DigitValue(a)
    else if !IsHex(b) then 0
    else if a == '-' then (ULONG_MAX + 1 - DigitValue(b)) % (ULONG_MAX + 1)
    else if a == '+' || IsSpace(a) then DigitValue(b)
    else 0
  }

  /** hex2mem_len: None when it dies on a value of ULONG_MAX; an odd last digit is left over. */
  function Decode(s: string): Option<seq<Byte>>
    decreases |s|
  {
    if |s| < 2 then Some([])
    else
      var v := StrToUl(s[0], s[1]);
      if v == ULONG_MAX then None
      else
        match Decode(s[2..])
        case None => None
        case Some(rest) => Some([v % 0x100] + rest)
  }

  function LowerChar(c: char): char {
    if 'A' <= c <= 'Z' then (c as int + 32) as char else c
  }

  function Lower(s: string): string {
    seq(|s|, i requires 0 <= i < |s| => LowerChar(s[i]))
  }

  predicate AllHex(s: string) {
    forall i | 0 <= i < |s| :: IsHex(s[i])
  }

  lemma DigitRoundTrip(n: int)
    requires 0 <= n < 16
    ensures IsHex(Digit(n)) && DigitValue(Digit(n)) == n
    ensures LowerChar(Digit(n)) == Digit(n)
  {}

  lemma DigitOfValue(c: char)
    requires IsHex(c)
    ensures Digit(DigitValue(c)) == LowerChar(c)
  {}

  /** Decoding the hex of any bytes gives them back. */
  lemma {:induction false} DecodeEncode(bytes: seq<Byte>)
    ensures Decode(Encode(bytes)) == Some(bytes)
    ensures |Encode(bytes)| == 2 * |bytes|
    decreases |bytes|
  {
    if bytes == [] {
    } else {
      var h, l := bytes[0] / 16, bytes[0] % 16;
      DigitRoundTrip(h);
      DigitRoundTrip(l);
      assert Encode(bytes)[2..] == Encode(bytes[1..]);
      assert bytes == [16 * h + l] + bytes[1..];
      DecodeEncode(bytes[1..]);
    }
  }

  predicate BackToLower(s: string) {
    Decode(s).Some? && Encode(Decode(s).value) == Lower(s)
  }

  /** Encoding what was decoded gives the lower-case form back exactly for the hex strings of
      even length. */
  lemma {:induction false} EncodeDecode(s: string)
    ensures BackToLower(s) <==> |s| % 2 == 0 && AllHex(s)
    decreases |s|
  {
    if |s| < 2 {
    } else {
      EncodeDecode(s[2..]);
      FirstPairBack(s);
      assert s == [s[0], s[1]] + s[2..];
      assert AllHex(s) <==> IsHex(s[0]) && IsHex(s[1]) && AllHex(s[2..]);
    }
  }

  lemma FirstPairBack(s: string)
    requires |s| >= 2
    ensures BackToLower(s) <==> IsHex(s[0]) && IsHex(s[1]) && BackToLower(s[2..])
  {
    PairBack(s[0], s[1]);
    assert Lower(s) == [LowerChar(s[0]), LowerChar(s[1])] + Lower(s[2..]);
    var b := StrToUl(s[0], s[1]) % 0x100;
    match Decode(s[2..])
    case None =>
    case Some(rest) =>
      assert Encode([b] + rest) == [Digit(b / 16), Digit(b % 16)] + Encode(rest);
      PairsEqual(Digit(b / 16), Digit(b % 16), Encode(rest), LowerChar(s[0]), LowerChar(s[1]), Lower(s[2..]));
  }

  lemma PairsEqual(a: char, b: char, x: string, c: char, d: char, y: string)
    ensures [a, b] + x == [c, d] + y <==> a == c && b == d && x == y
  {
    var p, q := [a, b] + x, [c, d] + y;
    assert p[0] == a && p[1] == b && p[2..] == x;
    assert q[0] == c && q[1] == d && q[2..] == y;
  }

  /** The value read from a pair prints as the pair in lower case exactly for two digits. */
  lemma PairBack(a: char, b: char)
    ensures var v := StrToUl(a, b) % 0x100;
      Digit(v / 16) == LowerChar(a) && Digit(v % 16) == LowerChar(b) <==> IsHex(a) && IsHex(b)
    ensures IsHex(a) && IsHex(b) ==> StrToUl(a, b) != ULONG_MAX
  {
    var v := StrToUl(a, b) % 0x100;
    if IsHex(a) && IsHex(b) {
      assert v / 16 == DigitValue(a) && v % 16 == DigitValue(b);
      DigitOfValue(a);
      DigitOfValue(b);
    } else {
      DigitRoundTrip(v / 16);
      DigitRoundTrip(v % 16);
      HexLower(a);
      HexLower(b);
    }
  }

  lemma HexLower(c: char)
    ensures IsHex(LowerChar(c)) ==> IsHex(c)
  {}

  // ----- Which digits, and what strtoul reads -----

  /** The hex of a byte: two of the sixteen lower-case digits, in the order of the bytes.  There
      are no more than 256 such pairs, so this says which is which. */
  lemma HexOrdered(b: Byte, c: Byte)
    requires b < c
    ensures var x, y := Encode([b]), Encode([c]);
      && |x| == 2 && |y| == 2
      && (forall i | 0 <= i < 2 :: '0' <= x[i] <= '9' || 'a' <= x[i] <= 'f')
      && (forall i | 0 <= i < 2 :: '0' <= y[i] <= '9' || 'a' <= y[i] <= 'f')
      && (x[0] < y[0] || (x[0] == y[0] && x[1] < y[1]))
  {
    DigitOrdered(b / 16, c / 16);
    DigitOrdered(b % 16, c % 16);
  }

  lemma DigitOrdered(m: int, n: int)
    requires 0 <= m < 16 && 0 <= n < 16
    ensures m < n <==> Digit(m) < Digit(n)
    ensures m == n <==> Digit(m) == Digit(n)
    ensures '0' <= Digit(m) <= '9' || 'a' <= Digit(m) <= 'f'
  {}

  /** strtoul in base 16 on any string, by the C standard (7.24.1.4): blanks, a sign, the prefix
      0x if a digit follows, digits; too large a number is ULONG_MAX. */
  function Strtoul(s: string): int
    decreases |s|
  {
    if s != [] && IsSpace(s[0]) then Strtoul(s[1..])
    else if s != [] && s[0] == '-' then (ULONG_MAX + 1 - Unprefixed(s[1..])) % (ULONG_MAX + 1)
    else if s != [] && s[0] == '+' then Unprefixed(s[1..])
    else Unprefixed(s)
  }

  function Unprefixed(s: string): (n: int)
    ensures 0 <= n <= ULONG_MAX
  {
    var n := Digits(0, if |s| > 2 && s[0] == '0' && (s[1] == 'x' || s[1] == 'X') && IsHex(s[2]) then s[2..] else s);
    if n > ULONG_MAX then ULONG_MAX else n
  }

  function Digits(n: nat, s: string): nat
    decreases |s|
  {
    if s != [] && IsHex(s[0]) then Digits(16 * n + DigitValue(s[0]), s[1..]) else n
  }

  /** On pairs of characters strtoul reads what hex2mem takes it to read. */
  lemma PairIsRead(a: char, b: char)
    ensures StrToUl(a, b) == Strtoul([a, b])
  {
    var s := [a, b];
    assert s[1..] == [b] && s[1..][1..] == [];
    assert Digits(0, []) == 0;
    assert forall n: nat :: Digits(n, [b]) == if IsHex(b) then 16 * n + DigitValue(b) else n by {
      assert [b][1..] == [];
    }
    assert Digits(0, s) == if IsHex(a) then Digits(DigitValue(a), [b]) else 0;
    if IsSpace(a) {
      assert Strtoul(s) == Strtoul([b]);
      assert [b][1..] == [] && Strtoul([]) == 0;
    }
  }

  /** The loop of mem2hex.  sprintf ends each pair with a NUL. */
  method Mem2Hex(out: array<char>, bytes: array<Byte>, len: nat)
    requires len <= bytes.Length && (len > 0 ==> 2 * len < out.Length)
    modifies out
    ensures len <= out.Length && 2 * len <= out.Length
    ensures out[..2 * len] == Encode(bytes[..len])
    ensures len > 0 ==> out[2 * len] == '\0'
    ensures len == 0 ==> out[..] == old(out[..])
  {
    var i: nat := 0;
    while i < len
      invariant i <= len && 2 * i <= out.Length
      invariant out[..2 * i] == Encode(bytes[..i])
      invariant i > 0 ==> 2 * i < out.Length && out[2 * i] == '\0'
      invariant i == 0 ==> out[..] == old(out[..])
    {
      var b := bytes[i];
      ghost var done := out[..2 * i];
      out[2 * i] := Digit(b / 16);
      out[2 * i + 1] := Digit(b % 16);
      out[2 * i + 2] := '\0';
      assert out[..2 * i] == done;
      assert out[..2 * (i + 1)] == done + [Digit(b / 16), Digit(b % 16)];
      assert bytes[..i + 1] == bytes[..i] + [b];
      EncodeAppend(bytes[..i], b);
      i := i + 1;
    }
  }

  lemma {:induction false} EncodeAppend(bytes: seq<Byte>, b: Byte)
    ensures Encode(bytes + [b]) == Encode(bytes) + [Digit(b / 16), Digit(b % 16)]
    decreases |bytes|
  {
    if bytes != [] {
      assert (bytes + [b])[1..] == bytes[1..] + [b];
      EncodeAppend(bytes[1..], b);
    } else {
      assert (bytes + [b])[1..] == [];
    }
  }

  /** The loop of hex2mem_len; false when it dies. */
  method Hex2Mem(out: array<Byte>, s: array<char>, len: nat) returns (ok: bool)
    requires len <= s.Length && len / 2 <= out.Length
    modifies out
    ensures ok == Decode(s[..len]).Some?
    ensures ok ==> out[..len / 2] == Decode(s[..len]).value
  {
    var i: nat := 0;
    assert s[0..len] == s[..len] && forall rest: seq<Byte> :: out[..0] + rest == rest;
    while 2 * i + 1 < len
      invariant 2 * i <= len
      invariant Decode(s[..len]) ==
        match Decode(s[2 * i..len]) case None => None case Some(rest) => Some(out[..i] + rest)
      decreases len - 2 * i
    {
      ghost var left := s[2 * i..len];
      assert left[0] == s[2 * i] && left[1] == s[2 * i + 1] && left[2..] == s[2 * (i + 1)..len];
      var v := StrToUl(s[2 * i], s[2 * i + 1]);
      if v == ULONG_MAX {
        return false;
      }
      ghost var done := out[..i];
      out[i] := v % 0x100;
      assert out[..i + 1] == done + [v % 0x100];
      if Decode(left[2..]).Some? {
        ghost var rest := Decode(left[2..]).value;
        assert done + ([v % 0x100] + rest) == (done + [v % 0x100]) + rest;
      }
      i := i + 1;
    }
    assert i == len / 2;
    return true;
  }

  // ----- Colons -----

  /** escape_colon puts a backslash before every colon, and before nothing else. */
  function Escape(s: string): string {
    if s == [] then []
    else (if s[0] == ':' then ['\\', ':'] else [s[0]]) + Escape(s[1..])
  }

  /** unescape_colon drops every backslash. */
  function Unescape(s: string): string {
    if s == [] then []
    else (if s[0] == '\\' then [] else [s[0]]) + Unescape(s[1..])
  }

  function Colons(s: string): nat {
    multiset(s)[':']
  }

  /** Unescaping an escaped string gives the original without its backslashes. */
  lemma {:induction false} UnescapeEscape(s: string)
    ensures Unescape(Escape(s)) == Unescape(s)
    decreases |s|
  {
    if s == [] {
    } else {
      UnescapeEscape(s[1..]);
      var e := Escape(s);
      if s[0] == ':' {
        assert e[1..][0] == ':' && e[1..][1..] == Escape(s[1..]);
        assert Unescape(e[1..]) == [':'] + Unescape(Escape(s[1..]));
        assert Unescape(e) == [] + Unescape(e[1..]);
      } else {
        assert e[1..] == Escape(s[1..]);
      }
    }
  }

  /** What unescape keeps, and what it drops. */
  lemma {:induction false} UnescapeDrops(s: string)
    ensures '\\' !in Unescape(s)
    ensures forall c | c != '\\' :: multiset(Unescape(s))[c] == multiset(s)[c]
    ensures |Unescape(s)| <= |s|
    ensures |Unescape(s)| == |s| <==> '\\' !in s
    decreases |s|
  {
    if s == [] {
    } else {
      UnescapeDrops(s[1..]);
      assert s == [s[0]] + s[1..];
    }
  }

  /** What is kept stays in its order. */
  lemma {:induction false} UnescapeJoin(s: string, t: string)
    ensures Unescape(s + t) == Unescape(s) + Unescape(t)
    decreases |s|
  {
    if s == [] {
      assert s + t == t;
    } else {
      assert (s + t)[1..] == s[1..] + t;
      UnescapeJoin(s[1..], t);
    }
  }

  lemma {:induction false} UnescapeClean(s: string)
    requires '\\' !in s
    ensures Unescape(s) == s
    decreases |s|
  {
    if s == [] {
    } else {
      assert s == [s[0]] + s[1..];
      UnescapeClean(s[1..]);
    }
  }

  /** The pair is a round trip exactly on the strings without a backslash. */
  lemma EscapeRoundTrip(s: string)
    ensures Unescape(Escape(s)) == s <==> '\\' !in s
  {
    UnescapeEscape(s);
    UnescapeDrops(s);
    if '\\' !in s {
      UnescapeClean(s);
    }
  }

  /** The escaped form has one more character for every colon, so it fits in 2n + 1 with its
      NUL. */
  lemma {:induction false} EscapeLength(s: string)
    ensures |Escape(s)| == |s| + Colons(s)
    ensures Colons(s) <= |s|
    ensures '\0' !in s ==> '\0' !in Escape(s)
    decreases |s|
  {
    if s == [] {
    } else {
      assert s == [s[0]] + s[1..];
      EscapeLength(s[1..]);
    }
  }

  /** Takes away the backslash in front of every colon that has one. */
  function Unguard(e: string): string {
    if e == [] then []
    else if |e| >= 2 && e[0] == '\\' && e[1] == ':' then [':'] + Unguard(e[2..])
    else [e[0]] + Unguard(e[1..])
  }

  /** Escaping puts a backslash in front of every colon, and only there: taking these away gives
      back any string, one with backslashes too, and no colon is left without. */
  lemma {:induction false} EscapeGuards(s: string)
    ensures Unguard(Escape(s)) == s
    ensures forall i | 0 <= i < |Escape(s)| && Escape(s)[i] == ':' :: i > 0 && Escape(s)[i - 1] == '\\'
    decreases |s|
  {
    var e := Escape(s);
    if s == [] {
    } else {
      EscapeGuards(s[1..]);
      FirstEscaped(s);
      assert s == [s[0]] + s[1..];
      if s[0] == ':' {
        assert e[2..] == Escape(s[1..]);
        assert forall i | 2 <= i < |e| :: e[i] == Escape(s[1..])[i - 2];
      } else {
        assert e[1..] == Escape(s[1..]);
        assert forall i | 1 <= i < |e| :: e[i] == Escape(s[1..])[i - 1];
      }
    }
  }

  /** Different strings stay different. */
  lemma {:induction false} EscapeInjective(s: string, t: string)
    requires Escape(s) == Escape(t)
    ensures s == t
    decreases |s|
  {
    var e := Escape(s);
    if s == [] || t == [] {
    } else {
      FirstEscaped(s);
      FirstEscaped(t);
      if s[0] == ':' || t[0] == ':' {
        assert s[0] == ':' && t[0] == ':';
        assert e[2..] == Escape(s[1..]) && e[2..] == Escape(t[1..]);
      } else {
        assert e[1..] == Escape(s[1..]) && e[1..] == Escape(t[1..]);
      }
      EscapeInjective(s[1..], t[1..]);
      assert s == [s[0]] + s[1..] && t == [t[0]] + t[1..];
    }
  }

  /** An escaped string starts with a backslash and a colon only for a colon. */
  lemma FirstEscaped(s: string)
    requires s != []
    ensures var e := Escape(s);
      && e != []
      && (s[0] == ':' <==> |e| >= 2 && e[0] == '\\' && e[1] == ':')
  {}

  /** A NUL-terminated string of `n` characters. */
  predicate IsCString(a: seq<char>, n: nat) {
    n < |a| && a[n] == '\0' && '\0' !in a[..n]
  }

  /** The loop of escape_colon into a buffer of 2n + 1, cut to size at the end. */
  method EscapeColon(str: array<char>, n: nat) returns (out: array<char>)
    requires IsCString(str[..], n)
    ensures fresh(out) && out.Length > 0 && IsCString(out[..], out.Length - 1)
    ensures out[..out.Length - 1] == Escape(str[..n])
  {
    var buf := new char[2 * n + 1];
    var i, o := 0, 0;
    while str[i] != '\0'
      invariant 0 <= i <= n && 0 <= o <= 2 * i
      invariant buf[..o] == Escape(str[..i])
      decreases n - i
    {
      assert str[..i + 1] == str[..i] + [str[i]];
      EscapeAppend(str[..i], str[i]);
      ghost var done := buf[..o];
      if str[i] == ':' {
        buf[o] := '\\';
        o := o + 1;
        buf[o] := str[i];
        assert buf[..o + 1] == done + ['\\', ':'];
      } else {
        buf[o] := str[i];
        assert buf[..o + 1] == done + [str[i]];
      }
      i, o := i + 1, o + 1;
    }
    assert str[..][i] == '\0';
    assert i == n;
    buf[o] := '\0';
    EscapeLength(str[..n]);
    assert buf[..o] == Escape(str[..n]);
    out := new char[o + 1](k requires 0 <= k < o + 1 <= buf.Length reads buf => buf[k]);
    assert out[..o] == buf[..o];
    assert out[..][..o] == out[..o];
  }

  lemma {:induction false} EscapeAppend(s: string, c: char)
    ensures Escape(s + [c]) == Escape(s) + if c == ':' then ['\\', ':'] else [c]
    decreases |s|
  {
    if s != [] {
      assert (s + [c])[1..] == s[1..] + [c];
      EscapeAppend(s[1..], c);
    } else {
      assert (s + [c])[1..] == [];
    }
  }

  lemma {:induction false} UnescapeAppend(s: string, c: char)
    ensures Unescape(s + [c]) == Unescape(s) + if c == '\\' then [] else [c]
    decreases |s|
  {
    if s != [] {
      assert (s + [c])[1..] == s[1..] + [c];
      UnescapeAppend(s[1..], c);
    } else {
      assert (s + [c])[1..] == [];
    }
  }

  /** unescape_colon compacts the buffer in place. */
  method UnescapeColon(str: array<char>, n: nat) returns (m: nat)
    requires IsCString(str[..], n)
    modifies str
    ensures IsCString(str[..], m) && str[..m] == Unescape(old(str[..n]))
  {
    var leading, following := 0, 0;
    ghost var original := str[..];
    while str[leading] != '\0'
      invariant 0 <= following <= leading <= n
      invariant str[..following] == Unescape(original[..leading])
      invariant str[leading..] == original[leading..]
      decreases n - leading
    {
      assert str[leading] == str[leading..][0] == original[leading..][0];
      assert original[..leading + 1] == original[..leading] + [original[leading]];
      UnescapeAppend(original[..leading], original[leading]);
      ghost var tail := str[leading..][1..];
      if str[leading] != '\\' {
        ghost var done := str[..following];
        str[following] := str[leading];
        following := following + 1;
        assert str[..following] == done + [original[leading]];
      }
      assert str[leading + 1..] == tail;
      leading := leading + 1;
    }
    assert str[leading] == str[leading..][0] == original[leading];
    assert leading == n;
    str[following] := '\0';
    m := following;
    UnescapeDrops(original[..n]);
    assert str[..][..m] == str[..m];
    assert multiset(str[..m])['\0'] == multiset(original[..n])['\0'];
  }
}

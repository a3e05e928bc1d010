/**
  The in-place percent decoder of app/eht_http_server/http_parser.c, against the escapes of
  section 2.1 of RFC 3986, and the '+' pass that form parameters get after it.
  */
module UrlDecoder {
  import opened Bytes
  import opened Options

  const PERCENT: byte := 0x25
  const PLUS: byte := 0x2B
  const SPACE: byte := 0x20

  // ----- Decoding

  /** `C2D`: other characters stand for their own code. */
  function C2D(c: byte): byte {
    if 0x30 <= c <= 0x39 then c - 0x30
    else if 0x61 <= c <= 0x66 then c - 0x61 + 10
    else if 0x41 <= c <= 0x46 then c - 0x41 + 10
    else c
  }

  /** `C2D(hi) * 0x10 + C2D(lo)`, stored in a character. */
  function Octet(hi: byte, lo: byte): byte {
    (C2D(hi) as int * 16 + C2D(lo) as int) % 256
  }

  /** `c` is the hex digit of value `v`, in either case (section 2.1 of RFC 3986). */
  predicate IsDigit(c: byte, v: int) {
    0 <= v < 16 && (c == "0123456789abcdef"[v] as int || c == "0123456789ABCDEF"[v] as int)
  }

  /** The digits by ranges of their codes. */
  lemma {:induction false} DigitRanges(c: byte, v: int)
    ensures IsDigit(c, v) <==>
              || (0 <= v < 10 && c == 0x30 + v)
              || (10 <= v < 16 && (c == 0x61 + v - 10 || c == 0x41 + v - 10))
  {}

  /** `c` says `v`: as a digit its value, and any other character its own code. */
  predicate Says(c: byte, v: int) {
    IsDigit(c, v) || (v == c && forall d | 0 <= d < 16 :: !IsDigit(c, d))
  }

  lemma {:induction false} SaysWhatC2DSays(c: byte, v: int)
    ensures Says(c, v) <==> C2D(c) == v
  {
    hide IsDigit;
    DigitRanges(c, v);
    DigitRanges(c, C2D(c));
    forall d: int ensures IsDigit(c, d) ==> d == C2D(c) {
      DigitRanges(c, d);
    }
  }

  /** The octet decoded from two characters, whatever they are: of two hex digits, sixteen times the first plus the second. */
  lemma {:induction false} OctetOfPair(hi: byte, lo: byte, a: int, b: int)
    requires Says(hi, a) && Says(lo, b)
    ensures Octet(hi, lo) == (16 * a + b) % 256
    ensures IsDigit(hi, a) && IsDigit(lo, b) ==> Octet(hi, lo) == 16 * a + b
  {
    SaysWhatC2DSays(hi, a);
    SaysWhatC2DSays(lo, b);
    hide Says;
    DigitRanges(hi, a);
    DigitRanges(lo, b);
    hide IsDigit, C2D;
  }

  /** Every escape the decoder starts is followed by two more characters. */
  predicate Complete(e: seq<byte>) {
    if e == [] then true
    else if e[0] == PERCENT then |e| >= 3 && Complete(e[3..])
    else Complete(e[1..])
  }

  function Unescaped(e: seq<byte>): (d: seq<byte>)
    requires Complete(e)
    ensures |d| <= |e|
  {
    if e == [] then []
    else if e[0] == PERCENT then [Octet(e[1], e[2])] + Unescaped(e[3..])
    else [e[0]] + Unescaped(e[1..])
  }

  /** The array holds the C string `s` from its start. */
  predicate HoldsString(a: seq<byte>, s: seq<byte>) {
    0 !in s && s + [0] <= a
  }

  lemma {:induction false} StringChars(a: seq<byte>, s: seq<byte>)
    requires HoldsString(a, s)
    ensures |s| < |a| && a[|s|] == 0 && forall k | 0 <= k < |s| :: a[k] == s[k] != 0
  {
    assert forall k | 0 <= k <= |s| :: a[k] == (s + [0])[k];
  }

  /**
    Where the decoder stops reading memory `m` from index `y` on: at the first NUL it looks at, if it finds one. It does
    not look at the two characters after a '%', the terminator of the string or not.
    */
  function Stop(m: seq<byte>, y: nat): (stop: Option<nat>)
    ensures stop.Some? ==> y <= stop.value < |m|
    decreases |m| - y
  {
    if y >= |m| then None
    else if m[y] == 0 then Some(y)
    else if m[y] != PERCENT then Stop(m, y + 1)
    else if y + 2 < |m| then Stop(m, y + 3)
    else None
  }

  /** What it has written when it stops. */
  function From(m: seq<byte>, y: nat): (d: seq<byte>)
    requires Stop(m, y).Some?
    ensures |d| <= Stop(m, y).value - y
    decreases |m| - y
  {
    if m[y] == 0 then []
    else if m[y] != PERCENT then [m[y]] + From(m, y + 1)
    else [Octet(m[y + 1], m[y + 2])] + From(m, y + 3)
  }

  /** It stops at the end of the string if and only if every escape is complete; otherwise behind it, if at all. */
  lemma {:induction false} StopsAtTerminator(m: seq<byte>, e: seq<byte>, y: nat)
    requires HoldsString(m, e) && y <= |e|
    ensures Stop(m, y) == Some(|e|) <==> Complete(e[y..])
    ensures Stop(m, y).Some? ==> |e| <= Stop(m, y).value
    ensures Complete(e[y..]) ==> From(m, y) == Unescaped(e[y..])
    decreases |e| - y
  {
    StringChars(m, e);
    if y < |e| {
      assert e[y..][0] == m[y];
      var n := if m[y] == PERCENT then 3 else 1;
      if y + n <= |e| {
        assert e[y..][n..] == e[y + n..];
        StopsAtTerminator(m, e, y + n);
      }
    }
  }

  /** Where one character, or one escape, leaves the decoder. */
  lemma {:induction false} StopStep(m: seq<byte>, y: nat)
    requires y < |m| && m[y] != 0 && (m[y] == PERCENT ==> y + 2 < |m|)
    ensures var n := if m[y] == PERCENT then 3 else 1;
            && Stop(m, y) == Stop(m, y + n)
            && (Stop(m, y).Some? ==>
                  From(m, y) == [if m[y] == PERCENT then Octet(m[y + 1], m[y + 2]) else m[y]] + From(m, y + n))
    ensures Stop(m, |m|) == None
  {}

  /** An escape cut short: the decoder steps over the end of "a%4" and goes on with whatever stands behind it. */
  lemma {:induction false} CutEscapeIsOverrun(rest: seq<byte>)
    ensures var m := [0x61, PERCENT, 0x34, 0] + rest;
            && HoldsString(m, [0x61, PERCENT, 0x34])
            && Stop(m, 0) == Stop(m, 4)
            && (rest == [] ==> Stop(m, 0) == None)
            && (Stop(m, 0).Some? ==> From(m, 0) == [0x61, Octet(0x34, 0)] + From(m, 4))
  {
    hide Stop, From, Octet;
    var m := [0x61, PERCENT, 0x34, 0] + rest;
    assert m[0] == 0x61 && m[1] == PERCENT && m[2] == 0x34 && m[3] == 0;
    StopStep(m, 0);
    StopStep(m, 1);
    assert [0x61, PERCENT, 0x34] + [0] <= m;
  }

  /** `done` has been written when `y` is the next character to read. */
  ghost predicate Progress(m: seq<byte>, done: seq<byte>, y: nat) {
    && Stop(m, 0).Some? && Stop(m, y) == Stop(m, 0) && |done| <= y
    && done + From(m, y) == From(m, 0)
  }

  /** One turn of the decoder reads `n` characters and writes `c`. */
  lemma {:induction false} DecodeOne(m: seq<byte>, done: seq<byte>, y: nat) returns (c: byte, n: nat)
    requires y < |m| && m[y] != 0 && Progress(m, done, y)
    ensures y + n < |m| && Progress(m, done + [c], y + n)
    ensures m[y] == PERCENT ==> n == 3 && c == Octet(m[y + 1], m[y + 2])
    ensures m[y] != PERCENT ==> n == 1 && c == m[y]
  {
    if m[y] == PERCENT {
      c, n := Octet(m[y + 1], m[y + 2]), 3;
    } else {
      c, n := m[y], 1;
    }
    Regroup(done, c, From(m, y + n));
  }

  lemma {:induction false} Regroup(a: seq<byte>, c: byte, b: seq<byte>)
    ensures a + ([c] + b) == a + [c] + b
  {}

  lemma {:induction false} ProgressBegins(m: seq<byte>)
    requires Stop(m, 0).Some?
    ensures 0 < |m| && Progress(m, [], 0)
  {
    assert [] + From(m, 0) == From(m, 0);
  }

  lemma {:induction false} ProgressEnds(m: seq<byte>, done: seq<byte>, y: nat)
    requires y < |m| && m[y] == 0 && Progress(m, done, y)
    ensures done == From(m, 0)
  {}

  /** The memory in the middle of decoding `m`: `done` at the front, what is still to be read as it was. */
  ghost predicate Halfway(now: seq<byte>, m: seq<byte>, done: seq<byte>) {
    && |done| <= |now| == |m|
    && (forall k | 0 <= k < |done| :: now[k] == done[k]) && forall k | |done| <= k < |m| :: now[k] == m[k]
  }

  lemma {:induction false} HalfwayReads(now: seq<byte>, m: seq<byte>, done: seq<byte>, y: nat)
    requires Halfway(now, m, done) && |done| <= y < |m|
    ensures |now| == |m| && forall k | y <= k < |m| :: now[k] == m[k]
  {}

  lemma {:induction false} HalfwayWrites(now: seq<byte>, m: seq<byte>, done: seq<byte>, c: byte)
    requires Halfway(now, m, done) && |done| < |m|
    ensures |done| < |now| && Halfway(now[|done| := c], m, done + [c])
  {}

  lemma {:induction false} HalfwayEnds(now: seq<byte>, m: seq<byte>, done: seq<byte>)
    requires Halfway(now, m, done) && |done| < |m|
    ensures |done| < |now| && var end := now[|done| := 0]; done + [0] <= end && end[|done| + 1..] == m[|done| + 1..]
  {}

  /**
    `unescape_http_url` on memory in which it stops: what is written never overtakes what is still to be read, so it
    decodes what was there, and touches nothing behind the end of the result.
    */
  method UnescapeHttpUrl(url: array<byte>)
    requires Stop(url[..], 0).Some?
    modifies url
    ensures var d := From(old(url[..]), 0);
            d + [0] <= url[..] && url[|d| + 1..] == old(url[..])[|d| + 1..]
  {
    Unescape(url, url[..]);
  }

  /** The loop, on the memory `m`. */
  method Unescape(url: array<byte>, ghost m: seq<byte>)
    requires m == url[..] && Stop(m, 0).Some?
    modifies url
    ensures |From(m, 0)| < |m| == url.Length
    ensures From(m, 0) + [0] <= url[..] && url[|From(m, 0)| + 1..] == m[|From(m, 0)| + 1..]
  {
    ghost var done: seq<byte> := [];
    ProgressBegins(m);
    var x, y := 0, 0;
    while url[y] != 0
      invariant x == |done| <= y < url.Length == |m| && Progress(m, done, y) && Halfway(url[..], m, done)
      decreases url.Length - y
    {
      hide *;
      ghost var c;
      y, c := DecodeAt(url, x, y, m, done);
      done := done + [c];
      x := x + 1;
    }
    hide *;
    HalfwayReads(url[..], m, done, y);
    ProgressEnds(m, done, y);
    HalfwayEnds(url[..], m, done);
    ghost var was: seq<byte> := url[..];
    url[x] := 0;
    assert url[..] == was[x := 0];
  }

  /** One turn of the loop: the character at `y` is decoded to `x`. */
  method DecodeAt(url: array<byte>, x: nat, y: nat, ghost m: seq<byte>, ghost done: seq<byte>)
    returns (next: nat, ghost c: byte)
    requires x == |done| <= y < url.Length == |m| && url[y] != 0 && Progress(m, done, y) && Halfway(url[..], m, done)
    modifies url
    ensures y < next < |m| && Progress(m, done + [c], next) && Halfway(url[..], m, done + [c])
  {
    hide *;
    next := y;
    ghost var was: seq<byte>, n := url[..], 0;
    HalfwayReads(was, m, done, y);
    c, n := DecodeOne(m, done, y);
    HalfwayWrites(was, m, done, c);
    url[x] := url[next];
    if url[x] == PERCENT {
      url[x] := Octet(url[next + 1], url[next + 2]);
      next := next + 2;
    }
    next := next + 1;
    assert url[..] == was[x := c];
  }

  // ----- Escaping

  /** These two hex digits, in either case each, name the octet `c`. */
  predicate Names(hi: byte, lo: byte, c: byte) {
    IsDigit(hi, c / 16) && IsDigit(lo, c % 16)
  }

  lemma {:induction false} NamedOctet(hi: byte, lo: byte, c: byte)
    requires Names(hi, lo, c)
    ensures Octet(hi, lo) == c && hi != 0 && lo != 0
  {
    OctetOfPair(hi, lo, c / 16, c % 16);
    DigitRanges(hi, c / 16);
    DigitRanges(lo, c % 16);
  }

  /** `e` is a percent-encoding of `s`: each octet is itself, or '%' and its two hex digits. */
  predicate Escapes(e: seq<byte>, s: seq<byte>)
    decreases s
  {
    if s == [] then e == []
    else if e == [] then false
    else if e[0] == 0x25 then |e| >= 3 && Names(e[1], e[2], s[0]) && Escapes(e[3..], s[1..])
    else e[0] == s[0] && Escapes(e[1..], s[1..])
  }

  /** Decoding restores every string from any of its escapings. */
  lemma {:induction false} UnescapeRestores(e: seq<byte>, s: seq<byte>)
    requires Escapes(e, s)
    ensures Complete(e) && Unescaped(e) == s
    decreases s
  {
    if s != [] {
      hide Names, Octet;
      if e[0] == PERCENT {
        NamedOctet(e[1], e[2], s[0]);
      }
      UnescapeRestores(if e[0] == PERCENT then e[3..] else e[1..], s[1..]);
      assert s == [s[0]] + s[1..];
    }
  }

  lemma {:induction false} EscapingIsString(e: seq<byte>, s: seq<byte>)
    requires Escapes(e, s) && 0 !in s
    ensures 0 !in e
    decreases s
  {
    if s != [] {
      hide Names;
      if e[0] == PERCENT {
        NamedOctet(e[1], e[2], s[0]);
        EscapingIsString(e[3..], s[1..]);
        assert e == e[..3] + e[3..];
      } else {
        EscapingIsString(e[1..], s[1..]);
        assert e == [e[0]] + e[1..];
      }
    }
  }

  predicate Unreserved(c: byte) {
    0x30 <= c <= 0x39 || 0x41 <= c <= 0x5A || 0x61 <= c <= 0x7A || c == 0x2D || c == 0x2E || c == 0x5F || c == 0x7E
  }

  function HexDigit(n: int): byte
    requires 0 <= n < 16
  {
    if n < 10 then 0x30 + n else 0x41 + n - 10
  }

  /** The encoder of RFC 3986: unreserved octets as they are, the others escaped in upper case. */
  function PercentEncode(s: seq<byte>): seq<byte> {
    if s == [] then []
    else (if Unreserved(s[0]) then [s[0]] else [PERCENT, HexDigit(s[0] / 16), HexDigit(s[0] % 16)])
         + PercentEncode(s[1..])
  }

  lemma {:induction false} HexRoundTrip(c: byte)
    ensures var h, l := HexDigit(c / 16), HexDigit(c % 16);
            Names(h, l, c) && Octet(h, l) == c
  {
    DigitRanges(HexDigit(c / 16), c / 16);
    DigitRanges(HexDigit(c % 16), c % 16);
    NamedOctet(HexDigit(c / 16), HexDigit(c % 16), c);
  }

  /** Every octet string, decoded from its standard encoding, is itself. */
  lemma {:induction false} PercentRoundTrip(s: seq<byte>)
    ensures Escapes(PercentEncode(s), s)
    ensures Complete(PercentEncode(s)) && Unescaped(PercentEncode(s)) == s
  {
    if s != [] {
      hide Names, Octet, Complete, Unescaped, HexDigit;
      PercentRoundTrip(s[1..]);
      HexRoundTrip(s[0]);
      var e := PercentEncode(s);
      assert Unreserved(s[0]) ==> e[1..] == PercentEncode(s[1..]);
      assert !Unreserved(s[0]) ==> e[3..] == PercentEncode(s[1..]);
    }
    UnescapeRestores(PercentEncode(s), s);
  }

  // ----- The '+' pass

  function Replaced(s: seq<byte>, old_: byte, new_: byte): (r: seq<byte>)
    ensures |r| == |s| && forall i | 0 <= i < |s| :: r[i] == if s[i] == old_ then new_ else s[i]
  {
    seq(|s|, i requires 0 <= i < |s| => if s[i] == old_ then new_ else s[i])
  }

  /** `replacetochar` */
  method ReplaceToChar(str: array<byte>, oldchar: byte, newchar: byte, ghost s: seq<byte>)
    requires HoldsString(str[..], s)
    modifies str
    ensures Replaced(s, oldchar, newchar) + [0] <= str[..]
    ensures str[|s|..] == old(str[|s|..])
  {
    StringChars(str[..], s);
    var x := 0;
    while str[x] != 0
      invariant 0 <= x <= |s| < str.Length
      invariant forall k | 0 <= k < x :: str[k] == Replaced(s, oldchar, newchar)[k]
      invariant forall k | x <= k < str.Length :: str[k] == old(str[k])
      decreases |s| - x
    {
      if str[x] == oldchar {
        str[x] := newchar;
      }
      x := x + 1;
    }
    assert str[..x + 1] == Replaced(s, oldchar, newchar) + [0];
  }

  /** Form data: a space may also be written '+', so a '+' itself must be escaped. */
  predicate FormEscapes(e: seq<byte>, s: seq<byte>)
    decreases s
  {
    if s == [] then e == []
    else if e == [] then false
    else if e[0] == 0x25 then |e| >= 3 && Names(e[1], e[2], s[0]) && FormEscapes(e[3..], s[1..])
    else ((e[0] == 0x2B && s[0] == 0x20) || (e[0] == s[0] && s[0] != 0x2B)) && FormEscapes(e[1..], s[1..])
  }

  /** Both passes restore what was escaped exactly if it holds no '+': an escaped '+' comes out as a space. */
  lemma {:induction false} FormPassRestores(e: seq<byte>, s: seq<byte>)
    requires FormEscapes(e, s)
    ensures Complete(e) && |Unescaped(e)| == |s|
    ensures Replaced(Unescaped(e), PLUS, SPACE) == Replaced(s, 0x2B, 0x20)
    ensures Replaced(Unescaped(e), PLUS, SPACE) == s <==> 0x2B !in s
    decreases s
  {
    if s != [] {
      hide Names, Octet;
      if e[0] == PERCENT {
        NamedOctet(e[1], e[2], s[0]);
      }
      var e' := if e[0] == PERCENT then e[3..] else e[1..];
      FormPassRestores(e', s[1..]);
      ReplacedFirst(Unescaped(e));
      ReplacedFirst(s);
    }
    ReplacedKeeps(s);
  }

  lemma {:induction false} ReplacedFirst(s: seq<byte>)
    requires s != []
    ensures Replaced(s, PLUS, SPACE) == [if s[0] == PLUS then SPACE else s[0]] + Replaced(s[1..], PLUS, SPACE)
  {}

  lemma {:induction false} ReplacedKeeps(s: seq<byte>)
    ensures Replaced(s, PLUS, SPACE) == s <==> PLUS !in s
  {
    if PLUS in s {
      var i :| 0 <= i < |s| && s[i] == PLUS;
      assert Replaced(s, PLUS, SPACE)[i] == SPACE;
    }
  }

  /** The same for plain percent-encoding, where '+' may also stand for itself. */
  lemma {:induction false} PlainPassRestores(e: seq<byte>, s: seq<byte>)
    requires Escapes(e, s)
    ensures Complete(e)
    ensures Replaced(Unescaped(e), PLUS, SPACE) == s <==> 0x2B !in s
  {
    UnescapeRestores(e, s);
    ReplacedKeeps(s);
  }

  // ----- A form parameter

  /** What C sees of `d` in an array: up to the first NUL. */
  function CString(d: seq<byte>): (s: seq<byte>)
    ensures 0 !in s && s <= d && (|s| < |d| ==> d[|s|] == 0)
  {
    if d == [] || d[0] == 0 then [] else [d[0]] + CString(d[1..])
  }

  lemma {:induction false} CStringOfText(d: seq<byte>)
    requires 0 !in d
    ensures CString(d) == d
  {
    if d != [] {
      CStringOfText(d[1..]);
    }
  }

  /** The result buffer once the text of a parameter is copied into it: behind its end stand older contents. */
  function Copied(name: seq<byte>, older: seq<byte>): seq<byte>
    requires |name| < |older|
  {
    name + [0] + older[|name| + 1..]
  }

  /** The decoder finds an end in the result buffer. */
  predicate Ends(name: seq<byte>, older: seq<byte>) {
    |name| < |older| && Stop(Copied(name, older), 0).Some?
  }

  /** The value a parameter gets, after both passes. */
  function Value(name: seq<byte>, older: seq<byte>): seq<byte>
    requires Ends(name, older)
  {
    Replaced(CString(From(Copied(name, older), 0)), PLUS, SPACE)
  }

  /** The octets the decoder makes of a string's own characters, that of an escape cut short after one digit among them. */
  function OwnOctets(e: seq<byte>): (d: seq<byte>)
    ensures Complete(e) ==> d == Unescaped(e)
  {
    if e == [] then []
    else if e[0] != PERCENT then [e[0]] + OwnOctets(e[1..])
    else if |e| >= 3 then [Octet(e[1], e[2])] + OwnOctets(e[3..])
    else if |e| == 2 then [Octet(e[1], 0)]
    else []
  }

  /** How many characters the last escape lacks. */
  function Missing(e: seq<byte>): (n: nat)
    ensures n <= 2 && (n == 0 <==> Complete(e))
  {
    if e == [] then 0
    else if e[0] != PERCENT then Missing(e[1..])
    else if |e| >= 3 then Missing(e[3..])
    else 3 - |e|
  }

  /** What the decoder that has read `e` writes of the older contents, when the last escape lacks `k` characters. */
  function Behind(m: seq<byte>, e: seq<byte>, k: nat): seq<byte>
    requires 0 < k && |e| + k < |m| && Stop(m, |e| + k).Some?
  {
    (if k == 1 then [] else [Octet(0, m[|e| + 1])]) + From(m, |e| + k)
  }

  lemma {:induction false} OwnStep(m: seq<byte>, e: seq<byte>, y: nat)
    requires HoldsString(m, e) && y < |e| && (m[y] == PERCENT ==> y + 2 < |e|)
    ensures var n := if m[y] == PERCENT then 3 else 1;
            var c := if m[y] == PERCENT then Octet(m[y + 1], m[y + 2]) else m[y];
            && y + n <= |e| && m[y] != 0 && y + n <= |m| && (m[y] == PERCENT ==> y + 2 < |m|)
            && Missing(e[y..]) == Missing(e[y + n..]) && OwnOctets(e[y..]) == [c] + OwnOctets(e[y + n..])
  {
    StringChars(m, e);
    var n := if m[y] == PERCENT then 3 else 1;
    assert e[y..][0] == m[y] && e[y..][n..] == e[y + n..];
    assert n == 3 ==> e[y..][1] == m[y + 1] && e[y..][2] == m[y + 2];
  }

  lemma {:induction false} CutHere(m: seq<byte>, e: seq<byte>, y: nat)
    requires HoldsString(m, e) && y < |e| && m[y] == PERCENT && y + 2 >= |e|
    ensures var k := Missing(e[y..]);
            && k > 0 && Stop(m, y) == Stop(m, |e| + k)
            && (Stop(m, y).Some? ==> |e| + k < |m| && From(m, y) == OwnOctets(e[y..]) + Behind(m, e, k))
  {
    StringChars(m, e);
    assert e[y..][0] == m[y];
    assert y + 2 == |e| ==> e[y..][1] == m[y + 1];
  }

  /** With an escape cut short the decoder writes the string's own octets, and then goes on behind the string. */
  lemma {:induction false} OwnThenBehind(m: seq<byte>, e: seq<byte>, y: nat)
    requires HoldsString(m, e) && y <= |e| && Missing(e[y..]) > 0
    ensures var k := Missing(e[y..]);
            && Stop(m, y) == Stop(m, |e| + k)
            && (Stop(m, y).Some? ==> |e| + k < |m| && From(m, y) == OwnOctets(e[y..]) + Behind(m, e, k))
    decreases |e| - y
  {
    hide *;
    InsideString(m, e, y);
    if m[y] == PERCENT && y + 2 >= |e| {
      CutHere(m, e, y);
    } else {
      OwnStep(m, e, y);
      StopStep(m, y);
      var n, c := if m[y] == PERCENT then 3 else 1, if m[y] == PERCENT then Octet(m[y + 1], m[y + 2]) else m[y];
      OwnThenBehind(m, e, y + n);
      if Stop(m, y).Some? {
        JoinLater(c, OwnOctets(e[y + n..]), Behind(m, e, Missing(e[y..])));
      }
    }
  }

  lemma {:induction false} InsideString(m: seq<byte>, e: seq<byte>, y: nat)
    requires HoldsString(m, e) && y <= |e| && Missing(e[y..]) > 0
    ensures y < |e| < |m|
  {}

  lemma {:induction false} JoinLater(c: byte, a: seq<byte>, b: seq<byte>)
    ensures [c] + (a + b) == [c] + a + b
  {}

  lemma {:induction false} CStringOfJoin(a: seq<byte>, b: seq<byte>)
    ensures 0 in a ==> CString(a + b) == CString(a)
    ensures 0 !in a ==> CString(a + b) == a + CString(b)
  {
    if a == [] {
      assert a + b == b;
    } else {
      assert a == [a[0]] + a[1..] && (a + b)[1..] == a[1..] + b;
      CStringOfJoin(a[1..], b);
    }
  }

  /** Whatever the older contents, a value that is decided by its own octets is what they say. */
  lemma {:induction false} OwnValue(name: seq<byte>, older: seq<byte>)
    requires 0 !in name && Ends(name, older) && (Complete(name) || 0 in OwnOctets(name))
    ensures Value(name, older) == Replaced(CString(OwnOctets(name)), PLUS, SPACE)
  {
    var m := Copied(name, older);
    assert name[0..] == name;
    if Complete(name) {
      StopsAtTerminator(m, name, 0);
    } else {
      OwnThenBehind(m, name, 0);
      var own, k := OwnOctets(name), Missing(name);
      CStringOfJoin(own, Behind(m, name, k));
    }
  }

  /** Older contents that put `c` into the value. */
  function Older(n: nat, c: byte): (older: seq<byte>)
    ensures |older| == n + 3 && older[n + 1] == c && older[n + 2] == 0
  {
    seq(n + 3, i => if i == n + 1 then c else 0)
  }

  /** Otherwise the first of the older contents has a say. */
  lemma {:induction false} OlderValue(name: seq<byte>, c: byte)
    requires 0 !in name && !Complete(name) && 0 !in OwnOctets(name)
    requires c != PERCENT && (Missing(name) == 2 ==> C2D(c) != 0)
    ensures Ends(name, Older(|name|, c))
    ensures Value(name, Older(|name|, c))
            == Replaced(OwnOctets(name) + (if Missing(name) == 2 then [C2D(c)] else if c == 0 then [] else [c]), PLUS, SPACE)
  {
    hide *;
    var m, k := Copied(name, Older(|name|, c)), Missing(name);
    CopiedOlder(name, c);
    OwnThenBehind(m, name, 0);
    BehindIs(m, name, c, k);
    var more := if k == 2 then [C2D(c)] else if c == 0 then [] else [c];
    CStringOfJoin(OwnOctets(name), more);
    CStringOfText(more);
    ValueIs(name, Older(|name|, c));
  }

  lemma {:induction false} ValueIs(name: seq<byte>, older: seq<byte>)
    requires |name| < |older| && Stop(Copied(name, older), 0).Some?
    ensures Ends(name, older) && Value(name, older) == Replaced(CString(From(Copied(name, older), 0)), PLUS, SPACE)
  {}

  lemma {:induction false} CopiedOlder(name: seq<byte>, c: byte)
    ensures var m := Copied(name, Older(|name|, c));
            && |m| == |name| + 3 && m[|name| + 1] == c && m[|name| + 2] == 0
            && (0 !in name ==> HoldsString(m, name)) && name[0..] == name
  {}

  lemma {:induction false} BehindIs(m: seq<byte>, e: seq<byte>, c: byte, k: nat)
    requires |m| == |e| + 3 && m[|e| + 1] == c != PERCENT && m[|e| + 2] == 0 && 1 <= k <= 2
    ensures Stop(m, |e| + k).Some? && Behind(m, e, k) == if k == 2 then [C2D(c)] else if c == 0 then [] else [c]
  {
    StopAtNul(m, |e| + 2);
    if k == 1 && c == 0 {
      StopAtNul(m, |e| + 1);
    } else if k == 1 {
      StopStep(m, |e| + 1);
    }
    hide Stop, From;
    assert [c] + [] == [c] && [C2D(c)] + [] == [C2D(c)];
  }

  lemma {:induction false} StopAtNul(m: seq<byte>, y: nat)
    requires y < |m| && m[y] == 0
    ensures Stop(m, y) == Some(y) && From(m, y) == []
  {}

  /**
    All older contents give one value if and only if every escape is complete, or a NUL is decoded from the string's own
    characters, which ends the value before the older contents come in.
    */
  lemma {:induction false} ValueIsItsOwnExactlyWhenDecided(name: seq<byte>)
    requires 0 !in name
    ensures (forall o, p | Ends(name, o) && Ends(name, p) :: Value(name, o) == Value(name, p))
            <==> Complete(name) || 0 in OwnOctets(name)
  {
    hide Ends, Value, Complete, OwnOctets, Older;
    if Complete(name) || 0 in OwnOctets(name) {
      forall o, p | Ends(name, o) && Ends(name, p) ensures Value(name, o) == Value(name, p) {
        OwnValue(name, o);
        OwnValue(name, p);
      }
    } else {
      OlderValue(name, 0x31);
      OlderValue(name, 0x32);
      OlderValuesDiffer(name);
    }
  }

  lemma {:induction false} OlderValuesDiffer(name: seq<byte>)
    ensures var own := OwnOctets(name);
            && Replaced(own + [C2D(0x31)], PLUS, SPACE) != Replaced(own + [C2D(0x32)], PLUS, SPACE)
            && Replaced(own + [0x31], PLUS, SPACE) != Replaced(own + [0x32], PLUS, SPACE)
  {
    var n := |OwnOctets(name)|;
    forall c: byte | c != PLUS ensures Replaced(OwnOctets(name) + [c], PLUS, SPACE)[n] == c {}
    assert C2D(0x31) == 1 && C2D(0x32) == 2;
  }

  /** The value of a text escaped for a form is that text, every '+' in it a space, whatever the older contents. */
  lemma {:induction false} FormValue(name: seq<byte>, s: seq<byte>, older: seq<byte>)
    requires 0 !in name && Ends(name, older) && FormEscapes(name, s) && 0 !in s
    ensures Value(name, older) == Replaced(s, 0x2B, 0x20)
  {
    hide *;
    FormPassRestores(name, s);
    NoNulReplaced(s);
    ReplacedNul(Unescaped(name));
    CStringOfText(Unescaped(name));
    OwnOfComplete(name);
    OwnValue(name, older);
  }

  lemma {:induction false} NoNulReplaced(s: seq<byte>)
    requires 0 !in s
    ensures 0 !in Replaced(s, 0x2B, 0x20)
  {}

  lemma {:induction false} OwnOfComplete(e: seq<byte>)
    requires Complete(e)
    ensures OwnOctets(e) == Unescaped(e)
  {}

  /** The value of "a+b%2Bc%2f" is "a b c/": an escaped '+' comes out as a space too. */
  lemma {:induction false} KnownValue(older: seq<byte>)
    requires Ends([0x61, 0x2B, 0x62, 0x25, 0x32, 0x42, 0x63, 0x25, 0x32, 0x66], older)
    ensures Value([0x61, 0x2B, 0x62, 0x25, 0x32, 0x42, 0x63, 0x25, 0x32, 0x66], older)
            == [0x61, 0x20, 0x62, 0x20, 0x63, 0x2F]
  {
    hide *;
    var name: seq<byte> := [0x61, 0x2B, 0x62, 0x25, 0x32, 0x42, 0x63, 0x25, 0x32, 0x66];
    KnownEscaping();
    FormValue(name, [0x61, 0x20, 0x62, 0x2B, 0x63, 0x2F], older);
    KnownReplaced();
  }

  lemma {:induction false} KnownReplaced()
    ensures Replaced([0x61, 0x20, 0x62, 0x2B, 0x63, 0x2F], 0x2B, 0x20) == [0x61, 0x20, 0x62, 0x20, 0x63, 0x2F]
  {
    hide *;
  }

  lemma {:induction false} KnownEscaping()
    ensures FormEscapes([0x61, 0x2B, 0x62, 0x25, 0x32, 0x42, 0x63, 0x25, 0x32, 0x66], [0x61, 0x20, 0x62, 0x2B, 0x63, 0x2F])
  {
    hide *;
    NamesSign();
    NothingEscaped();
    EscapedByte(0x32, 0x66, 0x2F, [], []);
    assert [0x25, 0x32, 0x66] + [] == [0x25, 0x32, 0x66] && [0x2F] + [] == [0x2F];
    PlainByte(0x63, 0x63, [0x25, 0x32, 0x66], [0x2F]);
    assert [0x63] + [0x25, 0x32, 0x66] == [0x63, 0x25, 0x32, 0x66] && [0x63] + [0x2F] == [0x63, 0x2F];
    EscapedByte(0x32, 0x42, 0x2B, [0x63, 0x25, 0x32, 0x66], [0x63, 0x2F]);
    var f: seq<byte>, t: seq<byte> := [0x25, 0x32, 0x42, 0x63, 0x25, 0x32, 0x66], [0x2B, 0x63, 0x2F];
    assert [0x25, 0x32, 0x42] + [0x63, 0x25, 0x32, 0x66] == f && [0x2B] + [0x63, 0x2F] == t;
    PlainByte(0x62, 0x62, f, t);
    PlainByte(0x2B, 0x20, [0x62] + f, [0x62] + t);
    PlainByte(0x61, 0x61, [0x2B] + ([0x62] + f), [0x20] + ([0x62] + t));
    assert [0x61] + ([0x2B] + ([0x62] + f)) == [0x61, 0x2B, 0x62, 0x25, 0x32, 0x42, 0x63, 0x25, 0x32, 0x66];
    assert [0x61] + ([0x20] + ([0x62] + t)) == [0x61, 0x20, 0x62, 0x2B, 0x63, 0x2F];
  }

  lemma {:induction false} NothingEscaped()
    ensures FormEscapes([], [])
  {}

  lemma {:induction false} EscapedByte(hi: byte, lo: byte, c: byte, e: seq<byte>, s: seq<byte>)
    requires Names(hi, lo, c) && FormEscapes(e, s)
    ensures FormEscapes([0x25, hi, lo] + e, [c] + s)
  {
    hide Names;
    assert ([0x25, hi, lo] + e)[3..] == e && ([c] + s)[1..] == s;
  }

  lemma {:induction false} PlainByte(x: byte, c: byte, e: seq<byte>, s: seq<byte>)
    requires x != 0x25 && FormEscapes(e, s) && ((x == 0x2B && c == 0x20) || (x == c && c != 0x2B))
    ensures FormEscapes([x] + e, [c] + s)
  {
    assert ([x] + e)[1..] == e && ([c] + s)[1..] == s;
  }

  lemma {:induction false} NamesSign()
    ensures Names(0x32, 0x42, 0x2B) && Names(0x32, 0x66, 0x2F)
  {
    DigitRanges(0x32, 2);
    DigitRanges(0x42, 11);
    DigitRanges(0x66, 15);
  }

  /** After "a%4" the value is "a@" or "a@b", as the older contents are. */
  lemma {:induction false} CutEscapeTakesOlder()
    ensures var name := [0x61, PERCENT, 0x34];
            && Ends(name, Older(3, 0)) && Value(name, Older(3, 0)) == [0x61, 0x40]
            && Ends(name, Older(3, 0x62)) && Value(name, Older(3, 0x62)) == [0x61, 0x40, 0x62]
  {
    var name := [0x61, PERCENT, 0x34];
    assert name[1..] == [PERCENT, 0x34];
    assert OwnOctets(name) == [0x61, 0x40] && Missing(name) == 1 && !Complete(name);
    OlderValue(name, 0);
    OlderValue(name, 0x62);
  }

  /** After "a%0", whose escape is cut short as well, it is always "a". */
  lemma {:induction false} CutEscapeOfNul(older: seq<byte>)
    requires Ends([0x61, PERCENT, 0x30], older)
    ensures !Complete([0x61, PERCENT, 0x30]) && Value([0x61, PERCENT, 0x30], older) == [0x61]
  {
    var name := [0x61, PERCENT, 0x30];
    assert name[1..] == [PERCENT, 0x30];
    assert OwnOctets(name) == [0x61, 0] && !Complete(name);
    OwnValue(name, older);
    assert [0x61, 0][1..] == [0];
  }

  /** The decoding part of `get_http_param_value`, from the text after '=' into the result buffer. */
  method DecodeParam(ret: array<byte>, name: seq<byte>)
    requires 0 !in name && Ends(name, ret[..])
    modifies ret
    ensures name == [] ==> [0] <= ret[..]
    ensures name != [] ==> Value(name, old(ret[..])) + [0] <= ret[..]
    ensures forall s | FormEscapes(name, s) && 0 !in s :: Replaced(s, 0x2B, 0x20) + [0] <= ret[..]
    ensures forall s | FormEscapes(name, s) && 0 !in s && 0x2B !in s :: s + [0] <= ret[..]
  {
    ghost var older: seq<byte> := ret[..];
    FormValues(name, older);
    hide *;
    if |name| > 0 {
      DecodeText(ret, name, older);
    } else {
      EndsHere(name, older);
      ret[0] := 0;
      assert ret[..1] == [0];
    }
  }

  /** The text is copied into the buffer, ended, and decoded there. */
  method DecodeText(ret: array<byte>, name: seq<byte>, ghost older: seq<byte>)
    requires 0 !in name && older == ret[..] && Ends(name, older)
    modifies ret
    ensures Value(name, older) + [0] <= ret[..]
  {
    hide Stop, From;
    ghost var m := Copied(name, older);
    var len := |name|;
    ret[len] := 0;
    forall i | 0 <= i < len {
      ret[i] := name[i];
    }
    assert ret[..] == m;
    UnescapeHttpUrl(ret);
    ghost var d := From(m, 0);
    CStringHeld(ret[..], d);
    ReplaceToChar(ret, PLUS, SPACE, CString(d));
  }

  lemma {:induction false} EndsHere(name: seq<byte>, older: seq<byte>)
    requires Ends(name, older)
    ensures |name| < |older|
  {}

  lemma {:induction false} FormValues(name: seq<byte>, older: seq<byte>)
    requires 0 !in name && Ends(name, older)
    ensures forall s | FormEscapes(name, s) && 0 !in s ::
              && |s| == |Replaced(s, 0x2B, 0x20)| && (s == [] <==> name == [])
              && (name != [] ==> Value(name, older) == Replaced(s, 0x2B, 0x20))
              && (0x2B !in s ==> Replaced(s, 0x2B, 0x20) == s)
  {
    hide *;
    forall s | FormEscapes(name, s) && 0 !in s
      ensures Value(name, older) == Replaced(s, 0x2B, 0x20) && (s == [] <==> name == [])
      ensures 0x2B !in s ==> Replaced(s, 0x2B, 0x20) == s
    {
      FormValue(name, s, older);
      EmptyForm(name, s);
      ReplacedNothing(s);
    }
  }

  lemma {:induction false} EmptyForm(e: seq<byte>, s: seq<byte>)
    requires FormEscapes(e, s)
    ensures s == [] <==> e == []
  {}

  lemma {:induction false} ReplacedNothing(s: seq<byte>)
    ensures 0x2B !in s ==> Replaced(s, 0x2B, 0x20) == s
  {
    hide *;
  }

  lemma {:induction false} CStringHeld(a: seq<byte>, d: seq<byte>)
    requires d + [0] <= a
    ensures HoldsString(a, CString(d))
  {
    var s := CString(d);
    assert forall i | 0 <= i < |d| :: a[i] == (d + [0])[i];
    assert a[|d|] == (d + [0])[|d|] == 0;
    assert a[..|s| + 1] == s + [0];
  }

  lemma {:induction false} ReplacedNul(d: seq<byte>)
    requires 0 !in Replaced(d, PLUS, SPACE)
    ensures 0 !in d
  {
    var r := Replaced(d, PLUS, SPACE);
    forall i | 0 <= i < |d| ensures d[i] != 0 {
      assert r[i] in r;
    }
  }
}

/** Text as the descriptor language and the coercions see it: trimming and decimal numbers. */
module Text {
  import opened Wrappers

  // -- white space ----------------------------------------------------------------------------------------

  /** Unicode `White_Space`, which Rust's `trim` removes. */
  predicate IsSpace(c: char) {
    || '\U{9}' <= c <= '\U{D}'
    || c == ' '
    || c == '\U{85}'
    || c == '\U{A0}'
    || c == '\U{1680}'
    || '\U{2000}' <= c <= '\U{200A}'
    || c == '\U{2028}'
    || c == '\U{2029}'
    || c == '\U{202F}'
    || c == '\U{205F}'
    || c == '\U{3000}'
  }

  /** The 25 code points of the property. */
  lemma WhiteSpace(c: char)
    ensures IsSpace(c) <==> c as int in {
      9, 10, 11, 12, 13, 32, 0x85, 0xA0, 0x1680, 0x2000, 0x2001, 0x2002, 0x2003, 0x2004, 0x2005, 0x2006, 0x2007,
      0x2008, 0x2009, 0x200A, 0x2028, 0x2029, 0x202F, 0x205F, 0x3000}
  {
  }

  function TrimStart(s: string): (r: string)
    ensures |r| <= |s|
    ensures r == [] || !IsSpace(r[0])
    ensures s != [] && !IsSpace(s[0]) ==> r == s
  {
    if s != [] && IsSpace(s[0]) then TrimStart(s[1..]) else s
  }

  function TrimEnd(s: string): (r: string)
    ensures |r| <= |s| && r == s[..|r|]
    ensures r == [] || !IsSpace(r[|r| - 1])
    ensures s != [] && !IsSpace(s[|s| - 1]) ==> r == s
  {
    if s != [] && IsSpace(s[|s| - 1]) then TrimEnd(s[..|s| - 1]) else s
  }

  function Trim(s: string): (r: string)
    ensures |r| <= |s|
    ensures Trimmed(r)
    ensures Trimmed(s) ==> r == s
  {
    TrimEnd(TrimStart(s))
  }

  predicate Trimmed(s: string) {
    s == [] || (!IsSpace(s[0]) && !IsSpace(s[|s| - 1]))
  }

  predicate NoSpace(s: string) {
    forall i :: 0 <= i < |s| ==> !IsSpace(s[i])
  }

  /** Trimming cuts white space off both ends and nothing else. */
  lemma {:induction false} TrimStartIsSuffix(s: string) returns (k: nat)
    ensures k <= |s| && TrimStart(s) == s[k..] && forall i :: 0 <= i < k ==> IsSpace(s[i])
  {
    k := 0;
    if s != [] && IsSpace(s[0]) {
      var j := TrimStartIsSuffix(s[1..]);
      assert s[1..][j..] == s[j + 1..];
      k := j + 1;
    }
  }

  lemma {:induction false} TrimEndIsPrefix(s: string)
    ensures forall i :: |TrimEnd(s)| <= i < |s| ==> IsSpace(s[i])
  {
    if s != [] && IsSpace(s[|s| - 1]) {
      TrimEndIsPrefix(s[..|s| - 1]);
      assert forall i :: 0 <= i < |s| - 1 ==> s[..|s| - 1][i] == s[i];
    }
  }

  lemma TrimIsSlice(s: string) returns (a: nat, b: nat)
    ensures a <= b <= |s| && Trim(s) == s[a..b]
    ensures forall i :: 0 <= i < a || b <= i < |s| ==> IsSpace(s[i])
  {
    a := TrimStartIsSuffix(s);
    TrimEndIsPrefix(s[a..]);
    b := a + |Trim(s)|;
    assert s[a..][..|Trim(s)|] == s[a..b];
    assert forall i :: b <= i < |s| ==> s[i] == s[a..][i - a];
  }

  // -- decimal numbers --------------------------------------------------------------------------------------

  predicate IsDigit(c: char) {
    '0' <= c <= '9'
  }

  predicate AllDigits(s: string) {
    forall i :: 0 <= i < |s| ==> IsDigit(s[i])
  }

  function DigitChar(d: nat): (c: char)
    requires d < 10
    ensures IsDigit(c) && (c as int) - ('0' as int) == d
  {
    ('0' as int + d) as char
  }

  function DigitsValue(s: string): nat
    requires AllDigits(s)
  {
    if s == [] then 0 else 10 * DigitsValue(s[..|s| - 1]) + ((s[|s| - 1] as int) - ('0' as int))
  }

  /** `n.to_string()`. */
  function NatText(n: nat): (s: string)
    ensures s != [] && AllDigits(s)
  {
    if n < 10 then [DigitChar(n)] else NatText(n / 10) + [DigitChar(n % 10)]
  }

  function IntText(n: int): string {
    if n < 0 then "-" + NatText(-n) else NatText(n)
  }

  lemma {:induction false} DigitsValueOfNatText(n: nat)
    ensures DigitsValue(NatText(n)) == n
  {
    if n >= 10 {
      DigitsValueOfNatText(n / 10);
      assert NatText(n)[..|NatText(n)| - 1] == NatText(n / 10);
    }
  }

  /** `str::parse` for an unsigned type with maximum `max`: an optional `+`, then digits in range. */
  function ParseUnsigned(s: string, max: nat): (r: Option<nat>)
    ensures r.Some? ==> r.value <= max
  {
    var body := if s != [] && s[0] == '+' then s[1..] else s;
    if body != [] && AllDigits(body) && DigitsValue(body) <= max then Some(DigitsValue(body)) else None
  }

  /** `str::parse::<i64>`. */
  function ParseSigned(s: string): (r: Option<int>)
    ensures r.Some? ==> -0x8000_0000_0000_0000 <= r.value < 0x8000_0000_0000_0000
  {
    var body := if s != [] && (s[0] == '+' || s[0] == '-') then s[1..] else s;
    if body == [] || !AllDigits(body) then None
    else
      var n := (if s[0] == '-' then -1 else 1) * DigitsValue(body);
      if -0x8000_0000_0000_0000 <= n < 0x8000_0000_0000_0000 then Some(n) else None
  }

  lemma ParseUnsignedOfText(n: nat, max: nat)
    ensures ParseUnsigned(NatText(n), max) == if n <= max then Some(n) else None
  {
    assert IsDigit(NatText(n)[0]);
    DigitsValueOfNatText(n);
  }

  lemma ParseSignedOfText(n: int)
    ensures ParseSigned(IntText(n)) ==
      if -0x8000_0000_0000_0000 <= n < 0x8000_0000_0000_0000 then Some(n) else None
  {
    var m: nat := if n < 0 then -n else n;
    assert IsDigit(NatText(m)[0]);
    DigitsValueOfNatText(m);
    assert ("-" + NatText(m))[1..] == NatText(m);
  }

  lemma IntTextIsTrimmed(n: int)
    ensures IntText(n) != [] && NoSpace(IntText(n)) && Trim(IntText(n)) == IntText(n)
  {
    assert AllDigits(NatText(if n < 0 then -n else n));
  }

  predicate IsDecimal(body: string, n: int) {
    body != [] && AllDigits(body) && DigitsValue(body) == n
  }

  /** What a text is without its sign. */
  lemma Unsigned(body: string, sign: string)
    requires body != [] && AllDigits(body) && |sign| == 1
    ensures (sign + body)[1..] == body && body[0] != '+' && body[0] != '-'
  {
    assert IsDigit(body[0]);
  }

  /** A digit text with an optional plus is what an unsigned parse accepts, up to the maximum. */
  lemma ParseUnsignedIsExact(s: string, max: nat, n: nat)
    ensures ParseUnsigned(s, max) == Some(n) <==>
      n <= max && exists body :: IsDecimal(body, n) && (s == body || s == "+" + body)
  {
    if ParseUnsigned(s, max) == Some(n) {
      var body := if s[0] == '+' then s[1..] else s;
      assert IsDecimal(body, n) && (s == body || s == "+" + body);
    }
    if body :| IsDecimal(body, n) && (s == body || s == "+" + body) {
      Unsigned(body, "+");
    }
  }

  /** And with an optional sign what a signed parse accepts, within `i64`. */
  lemma ParseSignedIsExact(s: string, n: int)
    ensures ParseSigned(s) == Some(n) <==>
      && -0x8000_0000_0000_0000 <= n < 0x8000_0000_0000_0000
      && ((exists body :: IsDecimal(body, n) && (s == body || s == "+" + body))
        || exists body :: IsDecimal(body, -n) && s == "-" + body)
  {
    if ParseSigned(s) == Some(n) {
      var body := if s[0] == '+' || s[0] == '-' then s[1..] else s;
      assert s == body || s == [s[0]] + body;
      assert if s[0] == '-' then IsDecimal(body, -n) else IsDecimal(body, n);
    }
    if body :| IsDecimal(body, n) && (s == body || s == "+" + body) {
      Unsigned(body, "+");
    }
    if body :| IsDecimal(body, -n) && s == "-" + body {
      Unsigned(body, "-");
    }
  }

  predicate AllSpace(s: string) {
    forall i :: 0 <= i < |s| ==> IsSpace(s[i])
  }

  lemma {:induction false} TrimStartDrops(a: string, s: string)
    requires AllSpace(a)
    ensures TrimStart(a + s) == TrimStart(s)
  {
    if a == [] {
      assert a + s == s;
    } else {
      assert (a + s)[1..] == a[1..] + s;
      TrimStartDrops(a[1..], s);
    }
  }

  lemma {:induction false} TrimEndDrops(s: string, b: string)
    requires AllSpace(b)
    ensures TrimEnd(s + b) == TrimEnd(s)
  {
    if b == [] {
      assert s + b == s;
    } else {
      assert (s + b)[..|s + b| - 1] == s + b[..|b| - 1];
      TrimEndDrops(s, b[..|b| - 1]);
    }
  }

  /** White space around a text with something in it makes no difference. */
  lemma SpaceAroundIsTrimmed(a: string, s: string, b: string)
    requires AllSpace(a) && AllSpace(b) && s != [] && Trimmed(s)
    ensures Trim(a + s + b) == s
  {
    assert a + s + b == a + (s + b);
    TrimStartDrops(a, s + b);
    assert (s + b)[0] == s[0];
    assert TrimStart(s + b) == s + b;
    TrimEndDrops(s, b);
  }
}

/** ASCII decimal digits and Python's `int(s)` on a digit string. */
module Decimal {
  import opened Results

  predicate IsDigit(c: char) {
    '0' <= c <= '9'
  }

  predicate AllDigits(s: string) {
    forall i :: 0 <= i < |s| ==> IsDigit(s[i])
  }

  function DigitValue(c: char): (d: nat)
    requires IsDigit(c)
    ensures d < 10
  {
    c as int - '0' as int
  }

  function DigitChar(d: nat): (c: char)
    requires d < 10
    ensures IsDigit(c) && DigitValue(c) == d
  {
    ('0' as int + d) as char
  }

  /** The number a digit string denotes, most significant digit first; 0 for "". */
  function Value(s: string): nat
    requires AllDigits(s)
    decreases |s|
  {
    if |s| == 0 then 0 else 10 * Value(s[..|s| - 1]) + DigitValue(s[|s| - 1])
  }

  /** `str(n)`: the canonical decimal spelling of `n`, with no leading zero. */
  function Render(n: nat): (r: string)
    ensures |r| > 0 && AllDigits(r)
    ensures r[0] == '0' ==> |r| == 1
    decreases n
  {
    if n < 10 then [DigitChar(n)] else Render(n / 10) + [DigitChar(n % 10)]
  }

  /** `s` without its leading zeros, keeping at least one digit. */
  function TrimZeros(s: string): (r: string)
    ensures |r| <= |s| && r == s[|s| - |r|..]
    ensures |s| > 0 ==> |r| > 0
    ensures |r| > 0 && r[0] == '0' ==> |r| == 1
  {
    if |s| <= 1 || s[0] != '0' then s else TrimZeros(s[1..])
  }

  /** `int(s)` for a string of ASCII digits: it raises on the empty string,
      and otherwise ignores leading zeros. */
  function ParseInt(s: string): (r: Option<nat>)
    requires AllDigits(s)
    ensures r.Some? <==> |s| > 0
    ensures r.Some? ==> Render(r.value) == TrimZeros(s)
  {
    if |s| == 0 then None
    else
      RenderOfValue(s);
      Some(Value(s))
  }

  /** Reading back what `Render` wrote gives the number again. */
  lemma {:induction false} ValueOfRender(n: nat)
    ensures Value(Render(n)) == n
    decreases n
  {
    if n >= 10 {
      var r := Render(n);
      ValueOfRender(n / 10);
      assert r[..|r| - 1] == Render(n / 10);
    }
  }

  /** Rendering the value of a digit string spells the string without its leading zeros. */
  lemma {:induction false} RenderOfValue(s: string)
    requires AllDigits(s) && |s| > 0
    ensures Render(Value(s)) == TrimZeros(s)
    decreases |s|
  {
    var p := s[..|s| - 1];
    var c := s[|s| - 1];
    var d := DigitValue(c);
    assert s == p + [c];
    assert DigitChar(d) == c;
    assert Value(s) == 10 * Value(p) + d;
    if |p| == 0 {
      assert Value(s) == d;
    } else if Value(p) == 0 {
      AllZerosWhenValueZero(p);
      TrimZerosOfZeros(p, c);
    } else {
      var v := Value(p);
      RenderOfValue(p);
      DivMod10(v, d);
      assert Render(10 * v + d) == Render(v) + [DigitChar(d)];
      TrimZerosAppend(p, c);
    }
  }

  lemma DivMod10(v: nat, d: nat)
    requires v > 0 && d < 10
    ensures (10 * v + d) / 10 == v && (10 * v + d) % 10 == d && 10 * v + d >= 10
  {
  }

  lemma {:induction false} AllZerosWhenValueZero(s: string)
    requires AllDigits(s) && Value(s) == 0
    ensures forall i :: 0 <= i < |s| ==> s[i] == '0'
    decreases |s|
  {
    if |s| > 0 {
      var p := s[..|s| - 1];
      AllZerosWhenValueZero(p);
      forall i | 0 <= i < |s|
        ensures s[i] == '0'
      {
        if i < |s| - 1 {
          assert s[i] == p[i];
        }
      }
    }
  }

  lemma {:induction false} TrimZerosOfZeros(p: string, c: char)
    requires forall i :: 0 <= i < |p| ==> p[i] == '0'
    ensures TrimZeros(p + [c]) == [c]
    decreases |p|
  {
    if |p| > 0 {
      assert (p + [c])[1..] == p[1..] + [c];
      TrimZerosOfZeros(p[1..], c);
    }
  }

  lemma {:induction false} TrimZerosAppend(p: string, c: char)
    requires |p| > 0 && AllDigits(p) && Value(p) > 0
    ensures TrimZeros(p + [c]) == TrimZeros(p) + [c]
    decreases |p|
  {
    if p[0] == '0' && |p| > 1 {
      assert (p + [c])[1..] == p[1..] + [c];
      assert Value(p[1..]) > 0 by {
        ValueDropZero(p);
      }
      TrimZerosAppend(p[1..], c);
    }
  }

  /** A leading zero does not change the value. */
  lemma {:induction false} ValueDropZero(s: string)
    requires |s| > 0 && AllDigits(s) && s[0] == '0'
    ensures Value(s[1..]) == Value(s)
    decreases |s|
  {
    if |s| > 1 {
      var p := s[..|s| - 1];
      ValueDropZero(p);
      assert p[1..] == s[1..][..|s[1..]| - 1];
    }
  }

  /** Dropping the leading zeros keeps the value. */
  lemma {:induction false} ValueOfTrimZeros(s: string)
    requires AllDigits(s) && |s| > 0
    ensures Value(TrimZeros(s)) == Value(s)
    decreases |s|
  {
    if |s| > 1 && s[0] == '0' {
      ValueDropZero(s);
      ValueOfTrimZeros(s[1..]);
    }
  }
}

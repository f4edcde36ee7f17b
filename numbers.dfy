/** JavaScript numbers as the components use them: either NaN or an exact
    real value. Floating-point rounding is not modelled. */
module Numbers {
  import opened Text

  datatype Number = NaN | Num(value: real) {

    /** `this + other`: NaN is absorbing. */
    function Plus(other: Number): (r: Number)
      ensures r.Num? <==> this.Num? && other.Num?
      ensures r.Num? ==> r.value == this.value + other.value
    {
      if this.Num? && other.Num? then Num(this.value + other.value) else NaN
    }

    /** `this - other` */
    function Minus(other: Number): (r: Number)
      ensures r.Num? <==> this.Num? && other.Num?
      ensures r.Num? ==> r.value == this.value - other.value
    {
      if this.Num? && other.Num? then Num(this.value - other.value) else NaN
    }

    /** `this * other`: NaN times anything, zero included, is NaN. */
    function Times(other: Number): (r: Number)
      ensures r.Num? <==> this.Num? && other.Num?
      ensures r.Num? ==> r.value == this.value * other.value
    {
      if this.Num? && other.Num? then Num(this.value * other.value) else NaN
    }

    /** `this / k` for a positive constant k. */
    function Over(k: nat): (r: Number)
      requires k > 0
      ensures r.Num? <==> this.Num?
      ensures r.Num? ==> r.value * k as real == this.value
    {
      if this.Num? then Num(this.value / k as real) else NaN
    }
  }

  /** Addition is associative, NaN included. */
  lemma PlusAssociative(a: Number, b: Number, c: Number)
    ensures a.Plus(b).Plus(c) == a.Plus(b.Plus(c))
  {
  }

  /** The laws a running total relies on: addition commutes, 0 is neutral
      for every number, and NaN absorbs on either side. */
  lemma PlusLaws(a: Number, b: Number)
    ensures a.Plus(b) == b.Plus(a)
    ensures a.Plus(Num(0.0)) == a && Num(0.0).Plus(a) == a
    ensures a.Plus(NaN) == NaN && NaN.Plus(a) == NaN
    ensures a.Plus(b) == NaN <==> a == NaN || b == NaN
  {
  }

  /** Multiplying a running sum by a rate distributes over the sum, NaN
      included. */
  lemma TimesDistributes(a: Number, b: Number, rate: real)
    ensures a.Plus(b).Times(Num(rate)) == a.Times(Num(rate)).Plus(b.Times(Num(rate)))
  {
    if a.Num? && b.Num? {
      assert (a.value + b.value) * rate == a.value * rate + b.value * rate;
    }
  }

  /** `Number(s)` for the strings the components see: surrounding white space
      is ignored, the empty string is 0, a run of decimal digits is its
      value, and anything else is NaN. */
  function FromString(s: string): (n: Number)
    ensures AllDigits(s) ==> n == Num(DigitsValue(s) as real)
    ensures n.Num? ==> n.value >= 0.0 && n.value == n.value.Floor as real
    ensures AllSpace(s) ==> n == Num(0.0)
  {
    var t := Trim(s);
    TrimEmptyIff(s);
    TrimOfDigits(s);
    if AllDigits(t) then Num(DigitsValue(t) as real) else NaN
  }

  lemma DigitIsNotSpace(c: char)
    requires IsDigit(c)
    ensures !IsSpace(c)
  {
  }

  /** A digit string has nothing to trim. */
  lemma TrimOfDigits(s: string)
    ensures AllDigits(s) ==> Trim(s) == s
  {
    if AllDigits(s) && s != [] {
      DigitIsNotSpace(s[0]);
      DigitIsNotSpace(s[|s| - 1]);
      assert TrimStart(s) == s;
      assert TrimEnd(s) == s;
    }
  }

  /** A character that is neither a digit nor white space makes `Number(s)`
      NaN, wherever it stands. */
  lemma FromStringNaN(s: string, i: int)
    requires 0 <= i < |s| && !IsDigit(s[i]) && !IsSpace(s[i])
    ensures FromString(s) == NaN
  {
    var t := TrimStart(s);
    TrimStartKeeps(s, i);
    var j := i - (|s| - |t|);
    assert t[j] == s[i];
    TrimEndKeeps(t, j);
    assert Trim(s)[j] == s[i];
  }
}

/** `format_bytes` (app.py:15-24): divide by 1024 while the value is above 1024,
    then label the result with the unit of the number of divisions made.
    The float division is modelled with exact reals; the `%.2f` rendering of the
    scaled value is the parameter `render`, left uninterpreted. */
module Sizes {
  import opened Wrappers

  /** A lookup in `power_labels` that finds no entry raises `KeyError(n)`. */
  datatype KeyError = KeyError(key: nat)

  /** Python truthiness of the size argument: `None` and `0` are falsy. */
  predicate Falsy(size: Option<int>) {
    size.None? || size.value == 0
  }

  /** 1024 (`power = 2**10`) to the power k. */
  function PowerOf(k: nat): (p: real)
    ensures p >= 1.0
  {
    if k == 0 then 1.0 else 1024.0 * PowerOf(k - 1)
  }

  lemma {:induction false} PowerOfMonotone(j: nat, k: nat)
    requires j <= k
    ensures PowerOf(j) <= PowerOf(k)
    decreases k
  {
    if j < k {
      PowerOfMonotone(j, k - 1);
    }
  }

  /** The number of times the loop divides `x` by 1024. */
  function UnitIndex(x: real): nat
    decreases x.Floor
  {
    if x > 1024.0 then
      assert (x / 1024.0).Floor < x.Floor;
      1 + UnitIndex(x / 1024.0)
    else 0
  }

  /** The value the loop leaves in `size`. */
  function Scaled(x: real): real
    decreases x.Floor
  {
    if x > 1024.0 then
      assert (x / 1024.0).Floor < x.Floor;
      Scaled(x / 1024.0)
    else x
  }

  /** The value is scaled into (1, 1024], or left alone when it is at most 1024. */
  lemma {:induction false} ScaledBounds(x: real)
    ensures Scaled(x) <= 1024.0
    ensures UnitIndex(x) >= 1 ==> Scaled(x) > 1.0
    ensures UnitIndex(x) == 0 ==> Scaled(x) == x
    decreases x.Floor
  {
    if x > 1024.0 {
      assert (x / 1024.0).Floor < x.Floor;
      ScaledBounds(x / 1024.0);
    }
  }

  /** No magnitude is lost: size = scaled * 1024^n. */
  lemma {:induction false} ScaledTimesPower(x: real)
    ensures Scaled(x) * PowerOf(UnitIndex(x)) == x
    decreases x.Floor
  {
    if x > 1024.0 {
      var y := x / 1024.0;
      assert y.Floor < x.Floor;
      ScaledTimesPower(y);
      var a, p := Scaled(y), PowerOf(UnitIndex(y));
      assert Scaled(x) == a && PowerOf(UnitIndex(x)) == 1024.0 * p;
      assert a * (1024.0 * p) == 1024.0 * (a * p);
    }
  }

  /** n is the least k with x <= 1024^(k+1): x is at most 1024^(n+1) and above
      every 1024^k with 1 <= k <= n. */
  lemma {:induction false} UnitIndexLeast(x: real)
    ensures x <= PowerOf(UnitIndex(x) + 1)
    ensures forall k: nat :: 1 <= k <= UnitIndex(x) ==> x > PowerOf(k)
    decreases x.Floor
  {
    if x > 1024.0 {
      var y := x / 1024.0;
      assert y.Floor < x.Floor;
      UnitIndexLeast(y);
      var n := UnitIndex(y);
      assert PowerOf(n + 2) == 1024.0 * PowerOf(n + 1);
      forall k: nat | 1 <= k <= UnitIndex(x) ensures x > PowerOf(k) {
        if k > 1 {
          assert y > PowerOf(k - 1);
        }
      }
    }
  }

  /** Any k with the bounds of `UnitIndexLeast` is the unit index. */
  lemma UnitIndexUnique(x: real, k: nat)
    requires x <= PowerOf(k + 1)
    requires k >= 1 ==> x > PowerOf(k)
    ensures UnitIndex(x) == k
  {
    UnitIndexLeast(x);
    var n := UnitIndex(x);
    if n < k {
      PowerOfMonotone(n + 1, k);
    }
  }

  /** `power_labels[n]`, with `None` for a key the dictionary lacks. */
  function UnitLabel(n: nat): (l: Option<string>)
    ensures l.Some? <==> n < 5
  {
    if n < 5 then Some(["", "K", "M", "G", "T"][n]) else None
  }

  /** What `format_bytes(size)` returns, or the `KeyError` it raises. */
  function SizeText(size: Option<int>, render: real -> string): Result<string, KeyError>
  {
    if Falsy(size) then Success("Unknown")
    else
      var x := size.value as real;
      match UnitLabel(UnitIndex(x))
      case Some(unit) => Success(render(Scaled(x)) + unit + "B")
      case None => Failure(KeyError(UnitIndex(x)))
  }

  /** The `while size > power` loop of app.py:21-23. */
  method ScaleDown(size: real) returns (scaled: real, n: nat)
    ensures scaled <= 1024.0 && scaled * PowerOf(n) == size
    ensures n >= 1 ==> scaled > 1.0
    ensures n == UnitIndex(size) && scaled == Scaled(size)
  {
    scaled, n := size, 0;
    while scaled > 1024.0
      invariant UnitIndex(size) == n + UnitIndex(scaled)
      invariant Scaled(scaled) == Scaled(size)
      decreases scaled.Floor
    {
      assert (scaled / 1024.0).Floor < scaled.Floor;
      scaled := scaled / 1024.0;
      n := n + 1;
    }
    ScaledBounds(size);
    ScaledTimesPower(size);
  }

  /** `format_bytes` itself. */
  method FormatBytes(size: Option<int>, render: real -> string) returns (r: Result<string, KeyError>)
    ensures r == SizeText(size, render)
  {
    if Falsy(size) {
      return Success("Unknown");
    }
    var scaled, n := ScaleDown(size.value as real);
    var unit := UnitLabel(n);
    if unit.None? {
      return Failure(KeyError(n));
    }
    return Success(render(scaled) + unit.value + "B");
  }

  /** "Unknown" comes out exactly for a falsy size; every other text ends in "B". */
  lemma SizeTextUnknownIffFalsy(size: Option<int>, render: real -> string)
    ensures SizeText(size, render) == Success("Unknown") <==> Falsy(size)
    ensures !Falsy(size) && SizeText(size, render).Success? ==>
      var t := SizeText(size, render).value; |t| > 0 && t[|t| - 1] == 'B'
  {
    if !Falsy(size) && SizeText(size, render).Success? {
      var t := SizeText(size, render).value;
      assert t[|t| - 1] == 'B';
      assert "Unknown"[6] == 'n';
    }
  }

  /** The largest size that still has a unit label: 1024^5 bytes. */
  const LargestLabelled: int := 1125899906842624

  lemma LargestLabelledIsPower()
    ensures LargestLabelled as real == PowerOf(5)
  {
    assert PowerOf(5) == 1024.0 * 1024.0 * 1024.0 * 1024.0 * 1024.0;
  }

  /** `format_bytes` raises exactly for sizes above 1024^5, and the missing key
      is the unit index. */
  lemma SizeTextFailsIffTooLarge(size: Option<int>, render: real -> string)
    ensures SizeText(size, render).Failure? <==> !Falsy(size) && size.value > LargestLabelled
    ensures SizeText(size, render).Failure? ==> SizeText(size, render).error.key >= 5
  {
    if !Falsy(size) {
      var x := size.value as real;
      UnitIndexLeast(x);
      LargestLabelledIsPower();
      if UnitIndex(x) < 5 {
        PowerOfMonotone(UnitIndex(x) + 1, 5);
      }
    }
  }

  /** The strict `>` keeps 1024 in bytes. */
  lemma SizeTextBoundaries(render: real -> string)
    ensures SizeText(Some(1024), render) == Success(render(1024.0) + "B")
    ensures SizeText(Some(1025), render) == Success(render(1025.0 / 1024.0) + "KB")
    ensures SizeText(Some(1048576), render) == Success(render(1024.0) + "KB")
    ensures SizeText(Some(0), render) == Success("Unknown")
    ensures SizeText(None, render) == Success("Unknown")
  {
    assert UnitIndex(1024.0) == 0 && Scaled(1024.0) == 1024.0;
    UnitIndexUnique(1025.0, 1);
    UnitIndexUnique(1048576.0, 1);
    assert Scaled(1025.0) == Scaled(1025.0 / 1024.0) == 1025.0 / 1024.0;
    assert Scaled(1048576.0) == Scaled(1024.0) == 1024.0;
    assert UnitLabel(1) == Some("K");
    assert render(1025.0 / 1024.0) + "K" + "B" == render(1025.0 / 1024.0) + "KB";
    assert render(1024.0) + "K" + "B" == render(1024.0) + "KB";
    assert render(1024.0) + "" + "B" == render(1024.0) + "B";
  }

  /** A negative size is never divided and carries no unit prefix. */
  lemma SizeTextNegative(v: int, render: real -> string)
    requires v < 0
    ensures SizeText(Some(v), render) == Success(render(v as real) + "B")
  {
    assert UnitIndex(v as real) == 0 && Scaled(v as real) == v as real;
    assert render(v as real) + "" + "B" == render(v as real) + "B";
  }
}

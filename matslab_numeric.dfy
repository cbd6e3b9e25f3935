/**
 * The numeric helpers MaTSlab exposes to user code: element-wise vector and
 * matrix arithmetic with shape checks, `linspace`, `meshgrid`, `zeros_like`
 * and the element-wise function wrappers (`sin`, `cos`, `pow`, ...).
 * Numbers are reals; IEEE-754 rounding, infinities and NaN are not modelled.
 */
module GlobalsImpl {
  import opened Wrappers

  /** The exceptions the helpers throw. */
  datatype NumError =
    | LengthsNotEqual(left: nat, right: nat)
    | FirstDimensionsNotEqual(left: nat, right: nat)
    | SecondDimensionsNotEqual(left: nat, right: nat)
      /** The TypeError of reading `arr[0].length` on a matrix with no rows. */
    | NoFirstRow
    | StepNotPositive

  /** The four arithmetic wrappers `add`, `sub`, `mul` and `div`. */
  datatype Op = Add | Sub | Mul | Div

  function Apply(op: Op, a: real, b: real): real
    requires op == Div ==> b != 0.0
  {
    match op
    case Add => a + b
    case Sub => a - b
    case Mul => a * b
    case Div => a / b
  }

  datatype Vec = Vec(arr: seq<real>)

  /** The argument of a vector operation: a number or another vector. */
  datatype VecOperand = VecScalar(s: real) | VecOf(v: Vec)

  /** No division by zero happens. */
  predicate VecDefined(op: Op, arg: VecOperand) {
    op == Div ==>
      match arg
      case VecScalar(s) => s != 0.0
      case VecOf(v) => forall i :: 0 <= i < |v.arr| ==> v.arr[i] != 0.0
  }

  /**
   * `Vec.binary`: a vector argument must have the receiver's length; the
   * result has the receiver's length and applies `op` index by index, or
   * against the number for a scalar argument.
   */
  function VecBinary(a: Vec, arg: VecOperand, op: Op): (r: Result<Vec, NumError>)
    requires VecDefined(op, arg)
    ensures r.Failure? <==> arg.VecOf? && |arg.v.arr| != |a.arr|
    ensures r.Failure? ==> r.error == LengthsNotEqual(|a.arr|, |arg.v.arr|)
    ensures r.Success? ==> |r.value.arr| == |a.arr|
  {
    match arg
    case VecOf(b) =>
      if |a.arr| != |b.arr| then Failure(LengthsNotEqual(|a.arr|, |b.arr|))
      else Success(Vec(seq(|a.arr|, i requires 0 <= i < |a.arr| => Apply(op, a.arr[i], b.arr[i]))))
    case VecScalar(s) =>
      Success(Vec(seq(|a.arr|, i requires 0 <= i < |a.arr| => Apply(op, a.arr[i], s))))
  }

  /** The vector holding `s` at every one of `n` positions. */
  function Fill(n: nat, s: real): (v: Vec)
    ensures |v.arr| == n && forall i :: 0 <= i < n ==> v.arr[i] == s
  {
    Vec(seq(n, _ => s))
  }

  /** A vector operation applies `op` position by position. */
  lemma VecBinaryAt(a: Vec, b: Vec, s: real, op: Op, i: int)
    requires VecDefined(op, VecOf(b)) && VecDefined(op, VecScalar(s))
    requires 0 <= i < |a.arr| == |b.arr|
    ensures VecBinary(a, VecOf(b), op).value.arr[i] == Apply(op, a.arr[i], b.arr[i])
    ensures VecBinary(a, VecScalar(s), op).value.arr[i] == Apply(op, a.arr[i], s)
  {
  }

  /** A number argument behaves as the vector filled with it. */
  lemma VecScalarIsFill(a: Vec, s: real, op: Op)
    requires VecDefined(op, VecScalar(s))
    ensures VecDefined(op, VecOf(Fill(|a.arr|, s)))
    ensures VecBinary(a, VecScalar(s), op) == VecBinary(a, VecOf(Fill(|a.arr|, s)), op)
  {
    var l := VecBinary(a, VecScalar(s), op).value.arr;
    var r := VecBinary(a, VecOf(Fill(|a.arr|, s)), op).value.arr;
    assert forall i :: 0 <= i < |a.arr| ==> l[i] == r[i];
    assert l == r;
  }

  /** Subtracting what was added gives the receiver back. */
  lemma VecAddSub(a: Vec, arg: VecOperand)
    requires arg.VecOf? ==> |arg.v.arr| == |a.arr|
    ensures VecBinary(VecBinary(a, arg, Add).value, arg, Sub) == Success(a)
  {
    var sum := VecBinary(a, arg, Add).value;
    var back := VecBinary(sum, arg, Sub).value;
    assert forall i :: 0 <= i < |a.arr| ==> back.arr[i] == a.arr[i];
    assert back.arr == a.arr;
  }

  /** Addition and multiplication do not depend on the order of two vectors. */
  lemma VecCommutes(a: Vec, b: Vec, op: Op)
    requires op == Add || op == Mul
    ensures VecBinary(a, VecOf(b), op) == VecBinary(b, VecOf(a), op)
      || (VecBinary(a, VecOf(b), op).Failure? && VecBinary(b, VecOf(a), op).Failure?)
  {
    if |a.arr| == |b.arr| {
      var l := VecBinary(a, VecOf(b), op).value.arr;
      var r := VecBinary(b, VecOf(a), op).value.arr;
      assert forall i :: 0 <= i < |a.arr| ==> l[i] == r[i];
      assert l == r;
    }
  }

  /** `Vec.map`: the callback gets each value and its index. */
  function VecMap(a: Vec, m: (real, nat) -> real): (r: Vec)
    ensures |r.arr| == |a.arr|
    ensures forall i :: 0 <= i < |a.arr| ==> r.arr[i] == m(a.arr[i], i)
  {
    Vec(seq(|a.arr|, i requires 0 <= i < |a.arr| => m(a.arr[i], i)))
  }

  datatype Mat = Mat(arr: seq<seq<real>>)

  /** Every row is as long as the first. */
  predicate Rectangular(m: Mat) {
    forall i :: 0 <= i < |m.arr| ==> |m.arr[i]| == |m.arr[0]|
  }

  /** `Mat.size`: the row count and the length of the first row. */
  function Size(m: Mat): (r: Result<(nat, nat), NumError>)
    ensures r.Failure? <==> |m.arr| == 0
    ensures r.Failure? ==> r.error == NoFirstRow
    ensures r.Success? ==> r.value.0 == |m.arr| && r.value.1 == |m.arr[0]|
  {
    if |m.arr| == 0 then Failure(NoFirstRow) else Success((|m.arr|, |m.arr[0]|))
  }

  datatype MatOperand = MatScalar(s: real) | MatOf(m: Mat)

  predicate MatDefined(op: Op, arg: MatOperand) {
    op == Div ==>
      match arg
      case MatScalar(s) => s != 0.0
      case MatOf(b) => forall i, j :: 0 <= i < |b.arr| && 0 <= j < |b.arr[i]| ==> b.arr[i][j] != 0.0
  }

  /** The element-wise result, row by row, over the receiver's own shape. */
  function MatZip(a: Mat, b: Mat, op: Op): (r: Mat)
    requires |a.arr| == |b.arr|
    requires forall i :: 0 <= i < |a.arr| ==> |a.arr[i]| <= |b.arr[i]|
    requires MatDefined(op, MatOf(b))
    ensures |r.arr| == |a.arr|
    ensures forall i :: 0 <= i < |a.arr| ==> |r.arr[i]| == |a.arr[i]|
    ensures forall i, j :: 0 <= i < |a.arr| && 0 <= j < |a.arr[i]| ==> r.arr[i][j] == Apply(op, a.arr[i][j], b.arr[i][j])
  {
    Mat(seq(|a.arr|, i requires 0 <= i < |a.arr| =>
      seq(|a.arr[i]|, j requires 0 <= j < |a.arr[i]| => Apply(op, a.arr[i][j], b.arr[i][j]))))
  }

  /** The element-wise result against a number; no shape is read. */
  function MatWithScalar(a: Mat, s: real, op: Op): (r: Mat)
    requires op == Div ==> s != 0.0
    ensures |r.arr| == |a.arr|
    ensures forall i :: 0 <= i < |a.arr| ==> |r.arr[i]| == |a.arr[i]|
    ensures forall i, j :: 0 <= i < |a.arr| && 0 <= j < |a.arr[i]| ==> r.arr[i][j] == Apply(op, a.arr[i][j], s)
  {
    Mat(seq(|a.arr|, i requires 0 <= i < |a.arr| =>
      seq(|a.arr[i]|, j requires 0 <= j < |a.arr[i]| => Apply(op, a.arr[i][j], s))))
  }

  /**
   * `Mat.binary`: a matrix argument must agree in row count and then in
   * first-row length (each read through `size`, which fails on a matrix
   * with no rows); a number argument needs no check. A matrix operation
   * thus fails exactly when a shape cannot be read or the shapes differ,
   * with the row check first; otherwise the result has the receiver's
   * shape and combines entries at the same position. A number argument
   * never fails, even with no rows.
   */
  function MatBinary(a: Mat, arg: MatOperand, op: Op): (r: Result<Mat, NumError>)
    requires arg.MatOf? ==> Rectangular(a) && Rectangular(arg.m)
    requires MatDefined(op, arg)
    ensures arg.MatScalar? ==> r.Success? && |r.value.arr| == |a.arr| && (Rectangular(a) ==> Rectangular(r.value))
    ensures arg.MatScalar? ==> forall i, j :: 0 <= i < |a.arr| && 0 <= j < |a.arr[i]| ==>
      |r.value.arr[i]| == |a.arr[i]| && r.value.arr[i][j] == Apply(op, a.arr[i][j], arg.s)
    ensures arg.MatOf? ==>
      (r.Success? <==> Size(a).Success? && Size(arg.m).Success? && Size(a).value == Size(arg.m).value)
    ensures arg.MatOf? && r.Failure? && Size(a).Success? && Size(arg.m).Success? ==>
      r.error == (if |a.arr| != |arg.m.arr| then FirstDimensionsNotEqual(|a.arr|, |arg.m.arr|)
                  else SecondDimensionsNotEqual(|a.arr[0]|, |arg.m.arr[0]|))
    ensures arg.MatOf? && r.Success? ==>
      && Rectangular(r.value) && Size(r.value) == Size(a)
      && forall i, j :: 0 <= i < |a.arr| && 0 <= j < |a.arr[i]| ==> r.value.arr[i][j] == Apply(op, a.arr[i][j], arg.m.arr[i][j])
  {
    match arg
    case MatScalar(s) => Success(MatWithScalar(a, s, op))
    case MatOf(b) =>
      if |a.arr| == 0 || |b.arr| == 0 then Failure(NoFirstRow)
      else if |a.arr| != |b.arr| then Failure(FirstDimensionsNotEqual(|a.arr|, |b.arr|))
      else if |a.arr[0]| != |b.arr[0]| then Failure(SecondDimensionsNotEqual(|a.arr[0]|, |b.arr[0]|))
      else
        var m := MatZip(a, b, op);
        assert |m.arr[0]| == |a.arr[0]|;
        Success(m)
  }

  /** `Mat.map`: the callback gets each value with its row and column. */
  function MatMap(a: Mat, m: (real, nat, nat) -> real): (r: Mat)
    ensures |r.arr| == |a.arr|
    ensures forall i :: 0 <= i < |a.arr| ==> |r.arr[i]| == |a.arr[i]|
    ensures forall i, j :: 0 <= i < |a.arr| && 0 <= j < |a.arr[i]| ==> r.arr[i][j] == m(a.arr[i][j], i, j)
  {
    Mat(seq(|a.arr|, i requires 0 <= i < |a.arr| =>
      seq(|a.arr[i]|, j requires 0 <= j < |a.arr[i]| => m(a.arr[i][j], i, j))))
  }

  /** How many values `linspace` produces: start, then every further step that stays within stop. */
  function LinspaceCount(start: real, stop: real, step: real): (n: nat)
    requires step > 0.0
    ensures n >= 1
  {
    if stop < start then 1 else ((stop - start) / step).Floor + 1
  }

  /** The values `linspace` produces, in exact arithmetic. */
  function LinspaceValues(start: real, stop: real, step: real): (v: seq<real>)
    requires step > 0.0
  {
    seq(LinspaceCount(start, stop, step), k => start + k as real * step)
  }

  /** Scaling by a positive step keeps order, both ways. */
  lemma ScaleOrder(a: real, b: real, c: real)
    requires c > 0.0
    ensures a * c <= b * c <==> a <= b
  {
    if a <= b {
      assert (b - a) * c >= 0.0;
    } else {
      assert (a - b) * c > 0.0;
    }
  }

  /** Position k, past the first, stays within stop exactly when k is below the count. */
  lemma LinspaceStepBound(start: real, stop: real, step: real, k: nat)
    requires step > 0.0 && k >= 1
    ensures start + k as real * step <= stop <==> k < LinspaceCount(start, stop, step)
  {
    if stop < start {
      assert k as real * step >= 0.0;
    } else {
      var q := (stop - start) / step;
      assert stop - start == q * step;
      ScaleOrder(k as real, q, step);
    }
  }

  /**
   * The values start with `start`, go up by `step`, never pass `stop` after
   * the first, and stop only when one more step would pass it.
   */
  lemma LinspaceProps(start: real, stop: real, step: real)
    requires step > 0.0
    ensures var v := LinspaceValues(start, stop, step);
      && |v| >= 1 && v[0] == start
      && (forall k :: 0 < k < |v| ==> v[k] == v[k - 1] + step)
      && (forall k :: 0 < k < |v| ==> v[k] <= stop)
      && v[|v| - 1] + step > stop
  {
    var v := LinspaceValues(start, stop, step);
    forall k | 0 < k < |v|
      ensures v[k] == v[k - 1] + step && v[k] <= stop
    {
      LinspaceNext(start, stop, step, k);
    }
    LinspaceLast(start, stop, step);
  }

  /** One step of the output. */
  lemma LinspaceNext(start: real, stop: real, step: real, k: int)
    requires step > 0.0 && 0 < k < |LinspaceValues(start, stop, step)|
    ensures var v := LinspaceValues(start, stop, step);
      v[k] == v[k - 1] + step && v[k] <= stop
  {
    assert k as real * step == (k - 1) as real * step + step;
    LinspaceStepBound(start, stop, step, k);
  }

  /** One more step past the last value would pass stop. */
  lemma LinspaceLast(start: real, stop: real, step: real)
    requires step > 0.0
    ensures var v := LinspaceValues(start, stop, step);
      v[|v| - 1] + step > stop
  {
    var n := LinspaceCount(start, stop, step);
    assert n as real * step == (n - 1) as real * step + step;
    LinspaceStepBound(start, stop, step, n);
  }

  /** `linspace`: rejects a step that is not positive, then grows the output one step at a time. */
  method Linspace(start: real, stop: real, step: real) returns (r: Result<Vec, NumError>)
    ensures step <= 0.0 ==> r == Failure(StepNotPositive)
    ensures step > 0.0 ==> r == Success(Vec(LinspaceValues(start, stop, step)))
  {
    var out := [start];
    if step <= 0.0 {
      return Failure(StepNotPositive);
    }
    ghost var n := LinspaceCount(start, stop, step);
    LinspaceStepBound(start, stop, step, 1);
    while out[|out| - 1] + step <= stop
      invariant 1 <= |out| <= n
      invariant forall k :: 0 <= k < |out| ==> out[k] == start + k as real * step
      decreases n - |out|
    {
      LinspaceStepBound(start, stop, step, |out|);
      assert out[|out| - 1] + step == start + |out| as real * step;
      out := out + [out[|out| - 1] + step];
    }
    LinspaceStepBound(start, stop, step, |out|);
    assert out[|out| - 1] + step == start + |out| as real * step;
    assert |out| == n;
    ghost var v := LinspaceValues(start, stop, step);
    assert forall k :: 0 <= k < n ==> out[k] == v[k];
    assert out == v;
    return Success(Vec(out));
  }

  /**
   * `meshgrid`: two matrices with one row per entry of `y` and one column
   * per entry of `x`; the first repeats `x` in every row, the second
   * repeats each entry of `y` along its row.
   */
  method Meshgrid(x: Vec, y: Vec) returns (xg: Mat, yg: Mat)
    ensures |xg.arr| == |y.arr| && |yg.arr| == |y.arr|
    ensures forall i :: 0 <= i < |y.arr| ==> |xg.arr[i]| == |x.arr| && |yg.arr[i]| == |x.arr|
    ensures forall i, j :: 0 <= i < |y.arr| && 0 <= j < |x.arr| ==> xg.arr[i][j] == x.arr[j] && yg.arr[i][j] == y.arr[i]
  {
    var nx := |x.arr|;
    var ny := |y.arr|;
    var xs := seq(ny, _ => seq(nx, _ => 0.0));
    var ys := seq(ny, _ => seq(nx, _ => 0.0));
    for i := 0 to ny
      invariant |xs| == ny && |ys| == ny
      invariant forall k :: i <= k < ny ==> |xs[k]| == nx && |ys[k]| == nx
      invariant forall k :: 0 <= k < i ==> xs[k] == x.arr && ys[k] == seq(nx, _ => y.arr[k])
    {
      xs, ys := FillMeshRow(xs, ys, i, x, y);
    }
    xg := Mat(xs);
    yg := Mat(ys);
  }

  /** The inner loop of `meshgrid`: row i of the first grid becomes `x`, of the second y[i] repeated. */
  method FillMeshRow(xs: seq<seq<real>>, ys: seq<seq<real>>, i: int, x: Vec, y: Vec)
    returns (xs': seq<seq<real>>, ys': seq<seq<real>>)
    requires 0 <= i < |xs| && i < |ys| && i < |y.arr| && |xs[i]| == |x.arr| && |ys[i]| == |x.arr|
    ensures xs' == xs[i := x.arr] && ys' == ys[i := seq(|x.arr|, _ => y.arr[i])]
  {
    xs', ys' := xs, ys;
    for j := 0 to |x.arr|
      invariant |xs'| == |xs| && |ys'| == |ys| && |xs'[i]| == |x.arr| && |ys'[i]| == |x.arr|
      invariant forall k :: 0 <= k < |xs| && k != i ==> xs'[k] == xs[k]
      invariant forall k :: 0 <= k < |ys| && k != i ==> ys'[k] == ys[k]
      invariant forall l :: 0 <= l < j ==> xs'[i][l] == x.arr[l] && ys'[i][l] == y.arr[i]
    {
      xs' := xs'[i := xs'[i][j := x.arr[j]]];
      ys' := ys'[i := ys'[i][j := y.arr[i]]];
    }
    assert xs'[i] == x.arr;
    assert xs' == xs[i := x.arr];
    assert ys'[i] == seq(|x.arr|, _ => y.arr[i]);
  }

  /**
   * `zeros_like`: reads the shape through `size`, so a matrix with no rows
   * fails; otherwise every row has the first row's length and holds zeros.
   */
  function ZerosLike(m: Mat): (r: Result<Mat, NumError>)
    ensures r.Failure? <==> |m.arr| == 0
    ensures r.Success? ==> Rectangular(r.value) && Size(r.value) == Size(m)
    ensures r.Success? ==> forall i, j :: 0 <= i < |r.value.arr| && 0 <= j < |r.value.arr[i]| ==> r.value.arr[i][j] == 0.0
  {
    match Size(m)
    case Failure(e) => Failure(e)
    case Success((rows, cols)) => Success(Mat(seq(rows, _ => seq(cols, _ => 0.0))))
  }

  /** Adding `zeros_like(m)` to a rectangular `m` gives `m` back. */
  lemma AddZerosLike(m: Mat)
    requires Rectangular(m) && |m.arr| > 0
    ensures MatBinary(m, MatOf(ZerosLike(m).value), Add) == Success(m)
  {
    var z := ZerosLike(m).value;
    var r := MatBinary(m, MatOf(z), Add).value;
    assert |r.arr| == |m.arr|;
    forall i | 0 <= i < |m.arr|
      ensures r.arr[i] == m.arr[i]
    {
      assert |r.arr[i]| == |m.arr[i]|;
      assert forall j :: 0 <= j < |m.arr[i]| ==> r.arr[i][j] == m.arr[i][j] + 0.0;
    }
    assert r.arr == m.arr;
  }

  /** What the element-wise wrappers accept: a vector or a plain array. */
  datatype VecOrArray = AsVec(v: Vec) | AsArray(a: seq<real>)

  function Values(x: VecOrArray): seq<real> {
    match x
    case AsVec(v) => v.arr
    case AsArray(a) => a
  }

  /**
   * `applyFunc(f)`: a new vector of `f` at every value. `sin`, `cos`, `tan`,
   * `exp` and `pow` are this with the corresponding `Math` function, which
   * the model takes as the parameter `f`.
   */
  function ApplyFunc(f: real -> real, x: VecOrArray): (r: Vec)
    ensures |r.arr| == |Values(x)|
    ensures forall i :: 0 <= i < |r.arr| ==> r.arr[i] == f(Values(x)[i])
  {
    Vec(seq(|Values(x)|, i requires 0 <= i < |Values(x)| => f(Values(x)[i])))
  }

  /** A vector and its plain array give the same result. */
  lemma ApplyFuncVecOrArray(f: real -> real, v: Vec)
    ensures ApplyFunc(f, AsVec(v)) == ApplyFunc(f, AsArray(v.arr))
  {
  }

  /** Applying `f` then `g` is applying their composition once. */
  lemma ApplyFuncCompose(f: real -> real, g: real -> real, x: VecOrArray)
    ensures ApplyFunc(g, AsVec(ApplyFunc(f, x))) == ApplyFunc(v => g(f(v)), x)
  {
    var l := ApplyFunc(g, AsVec(ApplyFunc(f, x)));
    var r := ApplyFunc(v => g(f(v)), x);
    assert forall i :: 0 <= i < |l.arr| ==> l.arr[i] == r.arr[i];
  }
}

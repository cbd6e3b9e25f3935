/**
 * The state the Newton-fractal renderer keeps between frames: a table of
 * typed shader uniforms, looked up and assigned by name and type, the plot
 * limits `resizeCanvas` sets, and the sliding window of frame times behind
 * the frame-rate display.
 */
module NewtonRenderer {
  import opened Wrappers

  datatype UniformType = Float | Int | Vec2 | Sampler2D

  /** A scalar for `float`, `int` and `sampler2D` uniforms, a pair for `vec2`. */
  datatype UniformValue = Scalar(v: real) | Pair(x: real, y: real)

  /** One uniform; its GL location is an opaque handle, None for `null`. */
  datatype Uniform = Uniform(name: string, value: UniformValue, location: Option<int>, utype: UniformType)

  /** The value shape the declared type allows. */
  predicate Fits(t: UniformType, v: UniformValue) {
    if t == Vec2 then v.Pair? else v.Scalar?
  }

  predicate WellTyped(us: seq<Uniform>) {
    forall i :: 0 <= i < |us| ==> Fits(us[i].utype, us[i].value)
  }

  /** Entry `i` is the first one called `name`: the one `Array.find` returns. */
  predicate IsFirst(us: seq<Uniform>, name: string, i: int) {
    0 <= i < |us| && us[i].name == name && forall j :: 0 <= j < i ==> us[j].name != name
  }

  /** The uniform called `name` exists and has type `t`. */
  predicate Declared(us: seq<Uniform>, name: string, t: UniformType) {
    exists i :: 0 <= i < |us| && IsFirst(us, name, i) && us[i].utype == t
  }

  /** `this.uniforms.find(u => u.name === name)`, as an index. */
  function Find(us: seq<Uniform>, name: string): (r: Option<nat>)
    ensures r.Some? ==> IsFirst(us, name, r.value)
    ensures r.None? ==> forall j :: 0 <= j < |us| ==> us[j].name != name
  {
    if |us| == 0 then None
    else if us[0].name == name then Some(0)
    else match Find(us[1..], name)
      case None => None
      case Some(i) => Some(i + 1)
  }

  lemma FindUnique(us: seq<Uniform>, name: string, i: int)
    requires IsFirst(us, name, i)
    ensures Find(us, name) == Some(i)
  {
  }

  /** `assignUniformValue` on the table. */
  function AssignValue(us: seq<Uniform>, name: string, t: UniformType, v: UniformValue): (r: seq<Uniform>)
    ensures |r| == |us|
  {
    match Find(us, name)
    case None => us
    case Some(i) => if us[i].utype != t then us else us[i := us[i].(value := v)]
  }

  /** The message `getUniformValue` throws. */
  function MissingUniform(name: string): string {
    "Missing uniform " + name
  }

  /** `getUniformValue` on the table. */
  function GetValue(us: seq<Uniform>, name: string, t: UniformType): (r: Result<UniformValue, string>)
    ensures r.Success? <==> Declared(us, name, t)
    ensures r.Success? ==> forall i :: IsFirst(us, name, i) ==> r.value == us[i].value
    ensures r.Failure? ==> r.error == MissingUniform(name)
  {
    match Find(us, name)
    case None => Failure(MissingUniform(name))
    case Some(i) => if us[i].utype != t then Failure(MissingUniform(name)) else Success(us[i].value)
  }

  /** `assignUniformLocation` on the table: the type is not checked. */
  function AssignLocation(us: seq<Uniform>, name: string, loc: Option<int>): (r: seq<Uniform>)
    ensures |r| == |us|
  {
    match Find(us, name)
    case None => us
    case Some(i) => us[i := us[i].(location := loc)]
  }

  /**
   * Assigning to a missing name, or with another type, changes nothing;
   * otherwise only the value of the first uniform with that name changes,
   * and the table keeps its length, names, types and locations.
   */
  lemma AssignValueProps(us: seq<Uniform>, name: string, t: UniformType, v: UniformValue)
    ensures !Declared(us, name, t) ==> AssignValue(us, name, t, v) == us
    ensures var r := AssignValue(us, name, t, v);
      forall j :: 0 <= j < |us| ==>
        r[j].name == us[j].name && r[j].utype == us[j].utype && r[j].location == us[j].location &&
        r[j].value == (if IsFirst(us, name, j) && us[j].utype == t then v else us[j].value)
  {
    var r := AssignValue(us, name, t, v);
    forall j | 0 <= j < |us|
      ensures r[j].value == (if IsFirst(us, name, j) && us[j].utype == t then v else us[j].value)
    {
      if IsFirst(us, name, j) {
        FindUnique(us, name, j);
      }
    }
  }

  /** A value just assigned under a declared name and type is the one read back. */
  lemma GetAfterAssign(us: seq<Uniform>, name: string, t: UniformType, v: UniformValue)
    requires Declared(us, name, t)
    ensures GetValue(AssignValue(us, name, t, v), name, t) == Success(v)
  {
    var i := Find(us, name).value;
    var r := AssignValue(us, name, t, v);
    assert IsFirst(r, name, i);
    FindUnique(r, name, i);
  }

  /** Assigning under one name leaves every other name's lookup as it was. */
  lemma GetOtherAfterAssign(us: seq<Uniform>, name: string, t: UniformType, v: UniformValue, other: string, t2: UniformType)
    requires other != name
    ensures GetValue(AssignValue(us, name, t, v), other, t2) == GetValue(us, other, t2)
  {
    var r := AssignValue(us, name, t, v);
    AssignValueProps(us, name, t, v);
    match Find(us, other)
    case None =>
      assert forall j :: 0 <= j < |r| ==> r[j].name != other;
    case Some(i) =>
      assert IsFirst(r, other, i);
      FindUnique(r, other, i);
  }

  /** Assigning a value of the declared shape keeps the table well typed. */
  lemma AssignKeepsWellTyped(us: seq<Uniform>, name: string, t: UniformType, v: UniformValue)
    requires WellTyped(us) && Fits(t, v)
    ensures WellTyped(AssignValue(us, name, t, v))
  {
  }

  /**
   * `assignUniformLocation` sets the location of the first uniform with that
   * name only, whatever its type, and changes nothing else.
   */
  lemma AssignLocationProps(us: seq<Uniform>, name: string, loc: Option<int>)
    ensures var r := AssignLocation(us, name, loc);
      forall j :: 0 <= j < |us| ==>
        r[j].name == us[j].name && r[j].utype == us[j].utype && r[j].value == us[j].value &&
        r[j].location == (if IsFirst(us, name, j) then loc else us[j].location)
  {
    forall j | 0 <= j < |us| && IsFirst(us, name, j) {
      FindUnique(us, name, j);
    }
  }

  /** Same length, names and types: what assignments never change. */
  predicate SameShape(a: seq<Uniform>, b: seq<Uniform>) {
    |a| == |b| && forall i :: 0 <= i < |a| ==> a[i].name == b[i].name && a[i].utype == b[i].utype
  }

  lemma SameShapeFirst(a: seq<Uniform>, b: seq<Uniform>, name: string, i: int)
    requires SameShape(a, b)
    ensures IsFirst(a, name, i) <==> IsFirst(b, name, i)
  {
  }

  /**
   * `cur` is `us` after the location loop has handled entries 0 .. k-1:
   * the same shape and values, and the first uniform of each name among
   * them holds its looked-up location.
   */
  predicate LocationsUpTo(cur: seq<Uniform>, us: seq<Uniform>, k: int, locate: string -> Option<int>) {
    SameShape(cur, us) &&
    forall i :: 0 <= i < |us| ==>
      cur[i].value == us[i].value &&
      cur[i].location == (if IsFirst(us, us[i].name, i) && i < k then locate(us[i].name) else us[i].location)
  }

  /** One pass of the location loop. */
  lemma LocationsStep(cur: seq<Uniform>, us: seq<Uniform>, k: int, locate: string -> Option<int>)
    requires 0 <= k < |us| && LocationsUpTo(cur, us, k, locate)
    ensures LocationsUpTo(AssignLocation(cur, us[k].name, locate(us[k].name)), us, k + 1, locate)
  {
    var name := us[k].name;
    var next := AssignLocation(cur, name, locate(name));
    AssignLocationProps(cur, name, locate(name));
    forall i | 0 <= i < |us|
      ensures next[i].location == (if IsFirst(us, us[i].name, i) && i < k + 1 then locate(us[i].name) else us[i].location)
    {
      SameShapeFirst(cur, us, name, i);
      if IsFirst(us, name, i) {
        assert us[i].name == name && i <= k;
      }
    }
  }

  /** With distinct names, as in the starting table, every uniform receives its looked-up location. */
  lemma LocationsDistinct(cur: seq<Uniform>, us: seq<Uniform>, locate: string -> Option<int>)
    requires forall i, j :: 0 <= i < j < |us| ==> us[i].name != us[j].name
    requires LocationsUpTo(cur, us, |us|, locate)
    ensures forall i :: 0 <= i < |us| ==> cur[i].location == locate(us[i].name)
  {
    forall i | 0 <= i < |us| ensures IsFirst(us, us[i].name, i) {
    }
  }

  /** The table the renderer starts with; `dpr` is the device pixel ratio and `halfRoot3` is sqrt(3)/2. */
  function DefaultUniforms(dpr: real, halfRoot3: real): (us: seq<Uniform>)
    ensures |us| == 12
  {
    [ Uniform("time", Scalar(0.0), None, Float),
      Uniform("resolution", Pair(512.0, 512.0), None, Vec2),
      Uniform("xLims", Pair(-1.0, 1.0), None, Vec2),
      Uniform("yLims", Pair(-1.0, 1.0), None, Vec2),
      Uniform("grid", Scalar(1.0), None, Float),
      Uniform("roots", Scalar(1.0), None, Float),
      Uniform("root1", Pair(1.0, 0.0), None, Vec2),
      Uniform("root2", Pair(-0.5, halfRoot3), None, Vec2),
      Uniform("root3", Pair(-0.5, -halfRoot3), None, Vec2),
      Uniform("nIter", Scalar(100.0), None, Int),
      Uniform("dpr", Scalar(dpr), None, Float),
      Uniform("auto", Scalar(0.0), None, Float) ]
  }

  /** The starting table is well typed and its names are distinct. */
  lemma DefaultUniformsDistinct(dpr: real, halfRoot3: real)
    ensures WellTyped(DefaultUniforms(dpr, halfRoot3))
    ensures var us := DefaultUniforms(dpr, halfRoot3);
      forall i, j :: 0 <= i < j < |us| ==> us[i].name != us[j].name
  {
  }

  /** The starting table declares the limits, `time` and `auto` with the types the renderer uses. */
  lemma DefaultUniformsDeclared(dpr: real, halfRoot3: real)
    ensures Declared(DefaultUniforms(dpr, halfRoot3), "resolution", Vec2)
    ensures Declared(DefaultUniforms(dpr, halfRoot3), "xLims", Vec2)
    ensures Declared(DefaultUniforms(dpr, halfRoot3), "yLims", Vec2)
    ensures Declared(DefaultUniforms(dpr, halfRoot3), "time", Float)
    ensures Declared(DefaultUniforms(dpr, halfRoot3), "auto", Float)
  {
    var us := DefaultUniforms(dpr, halfRoot3);
    assert IsFirst(us, "time", 0);
    assert IsFirst(us, "resolution", 1);
    assert IsFirst(us, "xLims", 2);
    assert IsFirst(us, "yLims", 3);
    assert IsFirst(us, "auto", 11);
  }

  /**
   * The three assignments `resizeCanvas` makes when it has a GL context.
   * When the three uniforms are declared, the resolution then reads
   * (width, height), x runs over [-2, 2] and y over [-2h/w, 2h/w].
   */
  function Resized(us: seq<Uniform>, width: real, height: real): (r: seq<Uniform>)
    requires width != 0.0
    ensures Declared(us, "resolution", Vec2) && Declared(us, "xLims", Vec2) && Declared(us, "yLims", Vec2) ==>
      && GetValue(r, "resolution", Vec2) == Success(Pair(width, height))
      && GetValue(r, "xLims", Vec2) == Success(Pair(-2.0, 2.0))
      && GetValue(r, "yLims", Vec2) == Success(Pair(-2.0 * (height / width), 2.0 * (height / width)))
  {
    var yl := Pair(-2.0 * (height / width), 2.0 * (height / width));
    var u1 := AssignValue(us, "resolution", Vec2, Pair(width, height));
    var u2 := AssignValue(u1, "xLims", Vec2, Pair(-2.0, 2.0));
    var u3 := AssignValue(u2, "yLims", Vec2, yl);
    GetOtherAfterAssign(us, "resolution", Vec2, Pair(width, height), "xLims", Vec2);
    GetOtherAfterAssign(us, "resolution", Vec2, Pair(width, height), "yLims", Vec2);
    GetOtherAfterAssign(u1, "xLims", Vec2, Pair(-2.0, 2.0), "resolution", Vec2);
    GetOtherAfterAssign(u1, "xLims", Vec2, Pair(-2.0, 2.0), "yLims", Vec2);
    GetOtherAfterAssign(u2, "yLims", Vec2, yl, "resolution", Vec2);
    GetOtherAfterAssign(u2, "yLims", Vec2, yl, "xLims", Vec2);
    if Declared(us, "resolution", Vec2) && Declared(us, "xLims", Vec2) && Declared(us, "yLims", Vec2) then
      GetAfterAssign(us, "resolution", Vec2, Pair(width, height));
      GetAfterAssign(u1, "xLims", Vec2, Pair(-2.0, 2.0));
      GetAfterAssign(u2, "yLims", Vec2, yl);
      u3
    else u3
  }

  /** A resize leaves every other uniform reading as before. */
  lemma ResizedOthers(us: seq<Uniform>, width: real, height: real, n: string, t: UniformType)
    requires width != 0.0
    requires n != "resolution" && n != "xLims" && n != "yLims"
    ensures GetValue(Resized(us, width, height), n, t) == GetValue(us, n, t)
  {
    var u1 := AssignValue(us, "resolution", Vec2, Pair(width, height));
    var u2 := AssignValue(u1, "xLims", Vec2, Pair(-2.0, 2.0));
    GetOtherAfterAssign(us, "resolution", Vec2, Pair(width, height), n, t);
    GetOtherAfterAssign(u1, "xLims", Vec2, Pair(-2.0, 2.0), n, t);
    GetOtherAfterAssign(u2, "yLims", Vec2, Pair(-2.0 * (height / width), 2.0 * (height / width)), n, t);
  }

  // ---------------------------------------------------------------------
  // Frame times

  /** The largest number of frame times kept. */
  const FrameWindow: nat := 20

  /** One `calcFPS` step on the window: push the new frame time, then drop the oldest if over 20. */
  function PushFrame(times: seq<real>, dt: real): (r: seq<real>)
    ensures |r| == (if |times| >= FrameWindow then |times| else |times| + 1)
    ensures |times| <= FrameWindow ==> |r| <= FrameWindow
    ensures r[|r| - 1] == dt
    ensures forall i :: 0 <= i < |r| - 1 ==> r[i] == times[|times| + 1 - |r| + i]
  {
    var pushed := times + [dt];
    if |pushed| > FrameWindow then pushed[1..] else pushed
  }

  /** The window after the frame times `dts`, starting from an empty one. */
  function Frames(dts: seq<real>): seq<real>
  {
    if |dts| == 0 then [] else PushFrame(Frames(dts[..|dts| - 1]), dts[|dts| - 1])
  }

  /** Dropping the last element, taking a suffix and putting the element back is taking the suffix. */
  lemma SuffixSnoc(dts: seq<real>, m: nat)
    requires m < |dts|
    ensures dts[..|dts| - 1][m..] + [dts[|dts| - 1]] == dts[m..]
  {
    var l := dts[..|dts| - 1][m..] + [dts[|dts| - 1]];
    forall i | 0 <= i < |l| ensures l[i] == dts[m..][i] {
    }
    assert l == dts[m..];
  }

  /** The latest min(20, n) of the frame times `dts`, oldest first. */
  function Latest(dts: seq<real>): seq<real> {
    if |dts| <= FrameWindow then dts else dts[|dts| - FrameWindow..]
  }

  /** While the window is not yet full, pushing keeps every frame time. */
  lemma LatestStepShort(dts: seq<real>)
    requires 0 < |dts| <= FrameWindow + 1
    ensures PushFrame(Latest(dts[..|dts| - 1]), dts[|dts| - 1]) == Latest(dts)
  {
    var n := |dts|;
    assert dts[..n - 1] + [dts[n - 1]] == dts;
    if n > FrameWindow {
      assert dts[1..] == dts[n - FrameWindow..];
    }
  }

  /** Once the window is full, pushing drops the oldest and appends the newest. */
  lemma LatestStepLong(dts: seq<real>)
    requires |dts| > FrameWindow + 1
    ensures PushFrame(Latest(dts[..|dts| - 1]), dts[|dts| - 1]) == Latest(dts)
  {
    var n := |dts|;
    SuffixSnoc(dts, n - 1 - FrameWindow);
    assert dts[n - 1 - FrameWindow..][1..] == dts[n - FrameWindow..];
  }

  /** The window holds exactly the latest min(20, n) frame times, oldest first. */
  lemma {:induction false} FramesAreLatest(dts: seq<real>)
    ensures |dts| <= FrameWindow ==> Frames(dts) == dts
    ensures |dts| > FrameWindow ==> Frames(dts) == dts[|dts| - FrameWindow..]
  {
    var n := |dts|;
    if n > 0 {
      FramesAreLatest(dts[..n - 1]);
      if n <= FrameWindow + 1 {
        LatestStepShort(dts);
      } else {
        LatestStepLong(dts);
      }
    }
  }

  // ---------------------------------------------------------------------
  // The renderer

  /** `auto` is declared and positive: the animation loop is running. */
  predicate AutoOn(us: seq<Uniform>) {
    var a := GetValue(us, "auto", Float);
    a.Success? && a.value.Scalar? && a.value.v > 0.0
  }

  /**
   * The early-exit test at the top of `render`: Success(true) to draw,
   * Success(false) to return at once, Failure when reading `auto` throws.
   */
  function RenderGuard(hasProgram: bool, hasContext: bool, force: bool, us: seq<Uniform>): (g: Result<bool, string>)
    ensures g == Success(false) <==> !hasProgram || !hasContext || (!force && AutoOn(us))
    ensures g.Failure? <==> hasProgram && hasContext && !force && !Declared(us, "auto", Float)
    ensures g.Failure? ==> g.error == MissingUniform("auto")
    ensures force && hasProgram && hasContext ==> g == Success(true)
  {
    if !hasProgram || !hasContext then Success(false)
    else if force then Success(true)
    else match GetValue(us, "auto", Float)
      case Failure(e) => Failure(e)
      case Success(v) => Success(!(v.Scalar? && v.v > 0.0))
  }

  class WebGLRenderer {
    var uniforms: seq<Uniform>
    /** A GL context was obtained. */
    var hasContext: bool
    /** A linked program exists. */
    var hasProgram: bool
    var didInit: bool
    var frameTimes: seq<real>
    var lastFrameTime: real
    /** Milliseconds at construction. */
    const startTime: real

    predicate Valid()
      reads this
    {
      WellTyped(uniforms) && |frameTimes| <= FrameWindow
    }

    /** Clock readings are parameters: `startTime` from `Date`, `now` from `performance.now()`. */
    constructor(dpr: real, halfRoot3: real, startTime: real, now: real)
      ensures Valid()
      ensures uniforms == DefaultUniforms(dpr, halfRoot3)
      ensures !hasContext && !hasProgram && !didInit
      ensures frameTimes == [] && lastFrameTime == now && this.startTime == startTime
    {
      uniforms := DefaultUniforms(dpr, halfRoot3);
      hasContext := false;
      hasProgram := false;
      didInit := false;
      frameTimes := [];
      lastFrameTime := now;
      this.startTime := startTime;
      new;
      DefaultUniformsDistinct(dpr, halfRoot3);
    }

    method AssignUniformValue(name: string, t: UniformType, v: UniformValue)
      requires Valid() && Fits(t, v)
      modifies this
      ensures Valid()
      ensures uniforms == AssignValue(old(uniforms), name, t, v)
      ensures hasContext == old(hasContext) && hasProgram == old(hasProgram) && didInit == old(didInit)
      ensures frameTimes == old(frameTimes) && lastFrameTime == old(lastFrameTime)
    {
      var found := Find(uniforms, name);
      if found.None? || uniforms[found.value].utype != t {
        return;
      }
      var i := found.value;
      uniforms := uniforms[i := uniforms[i].(value := v)];
    }

    method GetUniformValue(name: string, t: UniformType) returns (r: Result<UniformValue, string>)
      ensures r == GetValue(uniforms, name, t)
    {
      var found := Find(uniforms, name);
      if found.None? || uniforms[found.value].utype != t {
        return Failure("Missing uniform " + name);
      }
      return Success(uniforms[found.value].value);
    }

    method AssignUniformLocation(name: string, loc: Option<int>)
      requires Valid()
      modifies this
      ensures Valid()
      ensures uniforms == AssignLocation(old(uniforms), name, loc)
      ensures hasContext == old(hasContext) && hasProgram == old(hasProgram) && didInit == old(didInit)
      ensures frameTimes == old(frameTimes) && lastFrameTime == old(lastFrameTime)
    {
      var found := Find(uniforms, name);
      if found.None? {
        return;
      }
      var i := found.value;
      uniforms := uniforms[i := uniforms[i].(location := loc)];
    }

    /**
     * The location loop of `init`: each uniform's location is looked up by
     * name (`locate` stands for `getUniformLocation`) and assigned by name,
     * so the first uniform of each name gets it and later namesakes keep
     * theirs.
     */
    method AssignLocations(locate: string -> Option<int>)
      requires Valid()
      modifies this
      ensures Valid()
      ensures LocationsUpTo(uniforms, old(uniforms), |uniforms|, locate)
      ensures hasContext == old(hasContext) && hasProgram == old(hasProgram) && didInit == old(didInit)
      ensures frameTimes == old(frameTimes) && lastFrameTime == old(lastFrameTime)
    {
      ghost var us := uniforms;
      var table := uniforms;
      for k := 0 to |table|
        invariant Valid()
        invariant LocationsUpTo(uniforms, us, k, locate)
        invariant hasContext == old(hasContext) && hasProgram == old(hasProgram) && didInit == old(didInit)
        invariant frameTimes == old(frameTimes) && lastFrameTime == old(lastFrameTime)
      {
        ghost var before := uniforms;
        AssignUniformLocation(table[k].name, locate(table[k].name));
        LocationsStep(before, us, k, locate);
      }
    }

    /** `resizeCanvas`: without a GL context it does nothing. */
    method ResizeCanvas(width: real, height: real)
      requires Valid() && width != 0.0
      modifies this
      ensures Valid()
      ensures !old(hasContext) ==> uniforms == old(uniforms)
      ensures old(hasContext) ==> uniforms == Resized(old(uniforms), width, height)
      ensures hasContext == old(hasContext) && hasProgram == old(hasProgram) && didInit == old(didInit)
      ensures frameTimes == old(frameTimes) && lastFrameTime == old(lastFrameTime)
    {
      if !hasContext {
        return;
      }
      AssignUniformValue("resolution", Vec2, Pair(width, height));
      var r := 2.0;
      AssignUniformValue("xLims", Vec2, Pair(-r, r));
      var aspect := height / width;
      assert Pair(-r * aspect, r * aspect) == Pair(-2.0 * (height / width), 2.0 * (height / width));
      AssignUniformValue("yLims", Vec2, Pair(-r * aspect, r * aspect));
    }

    /**
     * `calcFPS` at clock reading `now`: the time since the last frame joins
     * the window, which drops its oldest entry when over 20.
     */
    method CalcFPS(now: real)
      requires Valid()
      modifies this
      ensures Valid()
      ensures frameTimes == PushFrame(old(frameTimes), now - old(lastFrameTime))
      ensures lastFrameTime == now
      ensures uniforms == old(uniforms)
      ensures hasContext == old(hasContext) && hasProgram == old(hasProgram) && didInit == old(didInit)
    {
      var newFrameTime := now;
      var oldFrameTime := lastFrameTime;
      frameTimes := frameTimes + [newFrameTime - oldFrameTime];
      if |frameTimes| > FrameWindow {
        frameTimes := frameTimes[1..];
      }
      lastFrameTime := newFrameTime;
    }

    /** The early-exit test of `render`, reading `auto` only when not forced. */
    method CheckGuard(force: bool) returns (g: Result<bool, string>)
      ensures g == RenderGuard(hasProgram, hasContext, force, uniforms)
    {
      if !hasProgram || !hasContext {
        return Success(false);
      }
      if force {
        return Success(true);
      }
      var auto := GetUniformValue("auto", Float);
      if auto.Failure? {
        return Failure(auto.error);
      }
      return Success(!(auto.value.Scalar? && auto.value.v > 0.0));
    }

    /**
     * `render(force)` at clock readings `now` (`performance.now()`) and
     * `clock` (`Date`). It returns the error it throws, if any, and the
     * `force` arguments of the renders it schedules with
     * `requestAnimationFrame`. When the guard says to return, nothing
     * changes; otherwise the frame time is recorded, `time` is set to the
     * seconds since construction, the first frame schedules a plain render,
     * and a running animation schedules a forced one.
     */
    method Render(force: bool, now: real, clock: real) returns (err: Option<string>, scheduled: seq<bool>)
      requires Valid()
      modifies this
      ensures Valid()
      ensures hasContext == old(hasContext) && hasProgram == old(hasProgram)
      ensures RenderGuard(old(hasProgram), old(hasContext), force, old(uniforms)) != Success(true) ==>
        err == (if RenderGuard(old(hasProgram), old(hasContext), force, old(uniforms)).Failure? then Some(MissingUniform("auto")) else None) &&
        scheduled == [] && uniforms == old(uniforms) &&
        frameTimes == old(frameTimes) && lastFrameTime == old(lastFrameTime) && didInit == old(didInit)
      ensures RenderGuard(old(hasProgram), old(hasContext), force, old(uniforms)) == Success(true) ==>
        frameTimes == PushFrame(old(frameTimes), now - old(lastFrameTime)) && lastFrameTime == now &&
        uniforms == AssignValue(old(uniforms), "time", Float, Scalar((clock - startTime) / 1000.0)) &&
        didInit &&
        scheduled == (if old(didInit) then [] else [false]) + (if AutoOn(uniforms) then [true] else []) &&
        err == (if Declared(uniforms, "auto", Float) then None else Some(MissingUniform("auto")))
    {
      var g := CheckGuard(force);
      assert g.Failure? ==> g.error == MissingUniform("auto");
      if g.Failure? {
        return Some(g.error), [];
      }
      if !g.value {
        return None, [];
      }
      err, scheduled := DrawFrame(now, clock);
    }

    /** The part of `render` after the guard; the GL draw calls are not modelled. */
    method DrawFrame(now: real, clock: real) returns (err: Option<string>, scheduled: seq<bool>)
      requires Valid()
      modifies this
      ensures Valid()
      ensures hasContext == old(hasContext) && hasProgram == old(hasProgram)
      ensures frameTimes == PushFrame(old(frameTimes), now - old(lastFrameTime)) && lastFrameTime == now
      ensures uniforms == AssignValue(old(uniforms), "time", Float, Scalar((clock - startTime) / 1000.0))
      ensures didInit
      ensures scheduled == (if old(didInit) then [] else [false]) + (if AutoOn(uniforms) then [true] else [])
      ensures err == (if Declared(uniforms, "auto", Float) then None else Some(MissingUniform("auto")))
    {
      err := None;
      scheduled := [];
      CalcFPS(now);
      AssignUniformValue("time", Float, Scalar((clock - startTime) / 1000.0));
      if !didInit {
        didInit := true;
        scheduled := scheduled + [false];
      }
      var auto := GetUniformValue("auto", Float);
      if auto.Failure? {
        return Some(auto.error), scheduled;
      }
      if auto.value.Scalar? && auto.value.v > 0.0 {
        scheduled := scheduled + [true];
      }
    }
  }
}

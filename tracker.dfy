/**
  The point-entry application: its modes, its key handlers and the state
  they update in place.

  In Normal mode 'a' starts entering a point and 'q' asks to quit. While a
  point is being entered, two text buffers collect the x and the y
  coordinate (one of them active at a time); Tab switches the active buffer,
  Backspace deletes from it, Esc abandons the entry and Enter tries to add
  the point, keeping the point list sorted by x.
 */
module Tracker {

  import opened FloatText
  import opened PointList

  datatype InputMode = Normal | AddingPoint

  datatype InputField = X | Y

  /** The key codes the handlers tell apart; every other code is `Other`. */
  datatype Key = Char(c: char) | Backspace | Tab | Enter | Esc | Other

  /** The status line, by the case that set it. */
  datatype Message =
    | Instructions
    | EnterX
    | EnterY
    | Cancelled
    | Added(x: real, y: real)
    | InvalidNumbers

  /** An `f64` accumulator that starts at negative infinity. */
  datatype Bound = NegInfinity | Finite(v: real)

  /** The field Tab switches to. */
  function Toggle(f: InputField): (g: InputField)
    ensures g != f
  {
    match f
    case X => Y
    case Y => X
  }

  /** The buffer left after `String::pop`, which does nothing to an empty string. */
  function Pop(s: string): (r: string)
    ensures s == [] ==> r == []
    ensures s != [] ==> r + [s[|s| - 1]] == s
  {
    if s == [] then [] else s[..|s| - 1]
  }

  /** `f64::max` of an accumulator and a coordinate. */
  function Max(b: Bound, v: real): (r: Bound)
    ensures r.Finite? && v <= r.v
    ensures b.Finite? ==> b.v <= r.v && (r.v == b.v || r.v == v)
    ensures b.NegInfinity? ==> r.v == v
  {
    match b
    case NegInfinity => Finite(v)
    case Finite(w) => if w < v then Finite(v) else Finite(w)
  }

  /** The seven fields of `App`, as a value. */
  datatype AppState = AppState(
    dataPoints: seq<Point>,
    mode: InputMode,
    inputField: InputField,
    inputX: string,
    inputY: string,
    message: Message,
    exit: bool)

  /**
    What every handler keeps: the buffers hold only characters the filter
    admits (so parsing them can give neither NaN nor a panic in the sort),
    the points are sorted by x, and outside point entry both buffers are
    empty.
   */
  predicate StateValid(st: AppState)
  {
    AllNumeric(st.inputX) && AllNumeric(st.inputY) && SortedByX(st.dataPoints)
    && (st.mode == Normal ==> st.inputX == [] && st.inputY == [])
  }

  /** `App::new`: the default state with the instructions as status. */
  function Initial(): (st: AppState)
    ensures StateValid(st)
  {
    AppState([], Normal, X, [], [], Instructions, false)
  }

  function Active(st: AppState): string
  {
    if st.inputField == X then st.inputX else st.inputY
  }

  /** st with the active buffer replaced by s. */
  function WithActive(st: AppState, s: string): (r: AppState)
    ensures Active(r) == s && r.inputField == st.inputField
    ensures if st.inputField == X then r.inputY == st.inputY else r.inputX == st.inputX
    ensures r.dataPoints == st.dataPoints && r.mode == st.mode
    ensures r.message == st.message && r.exit == st.exit
  {
    if st.inputField == X then st.(inputX := s) else st.(inputY := s)
  }

  /** The effect of a key pressed in Normal mode. */
  function NormalStep(st: AppState, key: Key): (r: AppState)
    requires StateValid(st)
    ensures StateValid(r) && r.dataPoints == st.dataPoints
  {
    match key
    case Char('q') => st.(exit := true)
    case Char('a') =>
      st.(mode := AddingPoint, inputField := X, inputX := [], inputY := [], message := EnterX)
    case _ => st
  }

  /** The effect of Enter: `try_add_point`. */
  function Commit(st: AppState): (r: AppState)
    requires StateValid(st)
    ensures StateValid(r)
  {
    var px, py := ParseF64(st.inputX), ParseF64(st.inputY);
    if px.Some? && py.Some? then
      var p := (px.value, py.value);
      InsertByXSorted(st.dataPoints, p);
      st.(dataPoints := InsertByX(st.dataPoints, p), mode := Normal,
          inputX := [], inputY := [], message := Added(p.0, p.1))
    else
      st.(message := InvalidNumbers)
  }

  /**
    When both buffers parse, Enter places the point in the list as a stable
    sort by x of the list with the point pushed would place it, and entry
    ends; otherwise only the status changes.
   */
  lemma CommitEffect(st: AppState)
    requires StateValid(st)
    ensures var r, px, py := Commit(st), ParseF64(st.inputX), ParseF64(st.inputY);
      r.inputField == st.inputField && r.exit == st.exit
      && if px.Some? && py.Some? then
        var p := (px.value, py.value);
        StableSortOf(r.dataPoints, st.dataPoints + [p]) && r.dataPoints == InsertByX(st.dataPoints, p)
        && multiset(r.dataPoints) == multiset(st.dataPoints) + multiset{p}
        && |r.dataPoints| == |st.dataPoints| + 1
        && r.mode == Normal && r.inputX == [] && r.inputY == []
        && r.message == Added(px.value, py.value)
      else
        r.dataPoints == st.dataPoints && r.mode == st.mode
        && r.inputX == st.inputX && r.inputY == st.inputY && r.message == InvalidNumbers
  {
    var px, py := ParseF64(st.inputX), ParseF64(st.inputY);
    if px.Some? && py.Some? {
      var p := (px.value, py.value);
      InsertByXSortsPush(st.dataPoints, p);
      InsertByXElements(st.dataPoints, p);
      assert |InsertByX(st.dataPoints, p)| == |multiset(st.dataPoints) + multiset{p}|;
    }
  }

  /** The effect of a key pressed while a point is being entered. */
  function AddingStep(st: AppState, key: Key): (r: AppState)
    requires StateValid(st) && st.mode == AddingPoint
    ensures StateValid(r) && r.exit == st.exit
  {
    match key
    case Char(c) => if IsNumericChar(c) then WithActive(st, Active(st) + [c]) else st
    case Backspace => WithActive(st, Pop(Active(st)))
    case Tab =>
      var f := Toggle(st.inputField);
      st.(inputField := f, message := if f == X then EnterX else EnterY)
    case Enter => Commit(st)
    case Esc => st.(mode := Normal, inputX := [], inputY := [], message := Cancelled)
    case Other => st
  }

  /** `handle_events` for one key press: dispatch on the mode. */
  function Step(st: AppState, key: Key): (r: AppState)
    requires StateValid(st)
    ensures StateValid(r)
    ensures st.exit ==> r.exit
  {
    match st.mode
    case Normal => NormalStep(st, key)
    case AddingPoint => AddingStep(st, key)
  }

  /** The state after handling keys in order, starting from st. */
  function Steps(st: AppState, keys: seq<Key>): (r: AppState)
    requires StateValid(st)
    ensures StateValid(r)
    decreases |keys|
  {
    if keys == [] then st else Step(Steps(st, keys[..|keys| - 1]), keys[|keys| - 1])
  }

  lemma StepsPrefix(st: AppState, keys: seq<Key>, h: nat)
    requires StateValid(st) && h < |keys|
    ensures Steps(st, keys[..h + 1]) == Step(Steps(st, keys[..h]), keys[h])
  {
    assert keys[..h + 1][..h] == keys[..h];
  }

  /** Nothing clears `exit`: once quit is asked for, it stays asked for. */
  lemma {:induction false} ExitStays(st: AppState, keys: seq<Key>)
    requires StateValid(st) && st.exit
    ensures Steps(st, keys).exit
    decreases |keys|
  {
    if keys != [] {
      ExitStays(st, keys[..|keys| - 1]);
    }
  }

  class App {
    var dataPoints: seq<Point>
    var mode: InputMode
    var inputField: InputField
    var inputX: string
    var inputY: string
    var message: Message
    var exit: bool

    /** The current values of the seven fields. */
    function Snapshot(): AppState
      reads this
    {
      AppState(dataPoints, mode, inputField, inputX, inputY, message, exit)
    }

    /** The invariant every handler keeps, on the current fields. */
    ghost predicate Valid()
      reads this
    {
      StateValid(Snapshot())
    }

    /** `App::new`. */
    constructor ()
      ensures Valid() && Snapshot() == Initial()
    {
      dataPoints := [];
      mode := Normal;
      inputField := X;
      inputX := [];
      inputY := [];
      message := Instructions;
      exit := false;
    }

    function ActiveBuffer(): string
      reads this
    {
      Active(Snapshot())
    }

    /** `handle_events` for one key press: dispatch on the mode. */
    method HandleEvent(key: Key)
      requires Valid()
      modifies this
      ensures Valid() && Snapshot() == Step(old(Snapshot()), key)
    {
      match mode {
        case Normal => HandleNormalInput(key);
        case AddingPoint => HandleAddingPointInput(key);
      }
    }

    method HandleNormalInput(key: Key)
      requires Valid()
      modifies this
      ensures Valid() && Snapshot() == NormalStep(old(Snapshot()), key)
    {
      match key {
        case Char('q') =>
          exit := true;
        case Char('a') =>
          mode := AddingPoint;
          inputField := X;
          inputX := [];
          inputY := [];
          message := EnterX;
        case _ =>
      }
    }

    method HandleAddingPointInput(key: Key)
      requires Valid() && mode == AddingPoint
      modifies this
      ensures Valid() && Snapshot() == AddingStep(old(Snapshot()), key)
    {
      ghost var st := Snapshot();
      match key {
        case Char(c) =>
          if IsNumericChar(c) {
            match inputField {
              case X => inputX := inputX + [c];
              case Y => inputY := inputY + [c];
            }
          }
          assert Snapshot() == AddingStep(st, key);
        case Backspace =>
          match inputField {
            case X => if inputX != [] { inputX := inputX[..|inputX| - 1]; }
            case Y => if inputY != [] { inputY := inputY[..|inputY| - 1]; }
          }
          assert Snapshot() == AddingStep(st, key);
        case Tab =>
          match inputField {
            case X =>
              message := EnterY;
              inputField := Y;
            case Y =>
              message := EnterX;
              inputField := X;
          }
          assert Snapshot() == AddingStep(st, key);
        case Enter =>
          TryAddPoint();
          assert Snapshot() == AddingStep(st, key);
        case Esc =>
          mode := Normal;
          inputX := [];
          inputY := [];
          message := Cancelled;
          assert Snapshot() == AddingStep(st, key);
        case Other =>
      }
    }

    /**
      `try_add_point`: push the point and sort the list stably by x. The new
      state is `Commit` of the old one, which `CommitEffect` shows to be the
      stable sort of the list with the point pushed.
     */
    method TryAddPoint()
      requires Valid()
      modifies this
      ensures Valid() && Snapshot() == Commit(old(Snapshot()))
    {
      ghost var st := Snapshot();
      var px, py := ParseF64(inputX), ParseF64(inputY);
      assert px == ParseF64(st.inputX) && py == ParseF64(st.inputY);
      if px.Some? && py.Some? {
        var p := (px.value, py.value);
        dataPoints := SortByX(dataPoints + [p]);
        InsertByXSortsPush(st.dataPoints, p);
        StableSortUnique(dataPoints, InsertByX(st.dataPoints, p));
        mode := Normal;
        inputX := [];
        inputY := [];
        message := Added(p.0, p.1);
        assert Snapshot() == st.(dataPoints := InsertByX(st.dataPoints, p), mode := Normal,
          inputX := [], inputY := [], message := Added(p.0, p.1));
      } else {
        message := InvalidNumbers;
        assert Commit(st) == st.(message := InvalidNumbers);
        assert Snapshot() == st.(message := InvalidNumbers);
      }
    }

    /**
      `bounds`: the largest x and the largest y of the points, each starting
      from negative infinity, so an empty list gives negative infinity twice.
     */
    method Bounds() returns (xMax: Bound, yMax: Bound)
      ensures dataPoints == [] ==> xMax == NegInfinity && yMax == NegInfinity
      ensures dataPoints != [] ==> xMax.Finite? && yMax.Finite?
      ensures dataPoints != [] ==>
        (forall i :: 0 <= i < |dataPoints| ==> dataPoints[i].0 <= xMax.v && dataPoints[i].1 <= yMax.v)
        && (exists i :: 0 <= i < |dataPoints| && dataPoints[i].0 == xMax.v)
        && (exists i :: 0 <= i < |dataPoints| && dataPoints[i].1 == yMax.v)
      ensures SortedByX(dataPoints) && dataPoints != [] ==>
        xMax == Finite(dataPoints[|dataPoints| - 1].0)
    {
      xMax, yMax := NegInfinity, NegInfinity;
      for i := 0 to |dataPoints|
        invariant i == 0 ==> xMax == NegInfinity && yMax == NegInfinity
        invariant i > 0 ==> xMax.Finite? && yMax.Finite?
        invariant i > 0 ==>
          (forall j :: 0 <= j < i ==> dataPoints[j].0 <= xMax.v && dataPoints[j].1 <= yMax.v)
          && (exists j :: 0 <= j < i && dataPoints[j].0 == xMax.v)
          && (exists j :: 0 <= j < i && dataPoints[j].1 == yMax.v)
      {
        var (x, y) := dataPoints[i];
        xMax := Max(xMax, x);
        yMax := Max(yMax, y);
      }
      if SortedByX(dataPoints) && dataPoints != [] {
        var j :| 0 <= j < |dataPoints| && dataPoints[j].0 == xMax.v;
        assert dataPoints[j].0 <= dataPoints[|dataPoints| - 1].0;
      }
    }
  }

  /**
    The run loop with the key presses given as a sequence: keys are handled
    one at a time, from the initial state, until `exit` is set or the keys
    run out.
   */
  method Run(keys: seq<Key>) returns (app: App, handled: nat)
    ensures fresh(app) && app.Valid()
    ensures handled <= |keys| && app.Snapshot() == Steps(Initial(), keys[..handled])
    ensures forall j :: 0 <= j < handled ==> !Steps(Initial(), keys[..j]).exit
    ensures handled < |keys| ==> app.exit
  {
    app := new App();
    handled := 0;
    assert keys[..0] == [];
    while handled < |keys| && !app.exit
      invariant fresh(app) && app.Valid() && handled <= |keys|
      invariant app.Snapshot() == Steps(Initial(), keys[..handled])
      invariant forall j :: 0 <= j < handled ==> !Steps(Initial(), keys[..j]).exit
    {
      app.HandleEvent(keys[handled]);
      StepsPrefix(Initial(), keys, handled);
      assert app.Snapshot() == Steps(Initial(), keys[..handled + 1]);
      assert forall j :: 0 <= j < handled + 1 ==> !Steps(Initial(), keys[..j]).exit;
      handled := handled + 1;
    }
  }

  /** Key presses typing s, one character each, into the active buffer. */
  method TypeText(app: App, s: string)
    requires app.Valid() && app.mode == AddingPoint && AllNumeric(s)
    modifies app
    ensures app.Valid() && app.mode == AddingPoint
    ensures app.inputField == old(app.inputField) && app.dataPoints == old(app.dataPoints)
    ensures app.message == old(app.message) && app.exit == old(app.exit)
    ensures app.ActiveBuffer() == old(app.ActiveBuffer()) + s
    ensures app.inputField == X ==> app.inputY == old(app.inputY)
    ensures app.inputField == Y ==> app.inputX == old(app.inputX)
  {
    for i := 0 to |s|
      invariant app.Valid() && app.mode == AddingPoint
      invariant app.inputField == old(app.inputField) && app.dataPoints == old(app.dataPoints)
      invariant app.message == old(app.message) && app.exit == old(app.exit)
      invariant app.ActiveBuffer() == old(app.ActiveBuffer()) + s[..i]
      invariant app.inputField == X ==> app.inputY == old(app.inputY)
      invariant app.inputField == Y ==> app.inputX == old(app.inputX)
    {
      app.HandleEvent(Char(s[i]));
      assert s[..i + 1] == s[..i] + [s[i]];
    }
    assert s[..|s|] == s;
  }

  /**
    A whole entry from Normal mode: 'a', the x text, Tab, the y text, Enter.
    The point is added exactly when both texts parse; otherwise the list is
    untouched and entry goes on with both texts kept.
   */
  method EnterPoint(app: App, xText: string, yText: string)
    requires app.Valid() && app.mode == Normal && AllNumeric(xText) && AllNumeric(yText)
    modifies app
    ensures app.Valid()
    ensures ParseF64(xText).Some? && ParseF64(yText).Some? ==>
      app.dataPoints == InsertByX(old(app.dataPoints), (ParseF64(xText).value, ParseF64(yText).value))
      && app.mode == Normal && app.inputX == [] && app.inputY == []
    ensures !(ParseF64(xText).Some? && ParseF64(yText).Some?) ==>
      app.dataPoints == old(app.dataPoints) && app.mode == AddingPoint
      && app.inputX == xText && app.inputY == yText && app.message == InvalidNumbers
  {
    ghost var points := app.dataPoints;
    app.HandleEvent(Char('a'));
    assert app.inputField == X && app.inputX == [] && app.inputY == [];
    TypeText(app, xText);
    assert app.inputX == xText && app.inputY == [];
    app.HandleEvent(Tab);
    assert app.inputField == Y && app.inputX == xText && app.inputY == [];
    TypeText(app, yText);
    assert app.inputX == xText && app.inputY == yText && app.dataPoints == points;
    app.HandleEvent(Enter);
  }

  /** Tab pressed twice during entry gives back the field it started on and nothing else changes. */
  method PressTabTwice(app: App)
    requires app.Valid() && app.mode == AddingPoint
    modifies app
    ensures app.Valid() && app.inputField == old(app.inputField)
    ensures app.inputX == old(app.inputX) && app.inputY == old(app.inputY)
    ensures app.mode == old(app.mode) && app.dataPoints == old(app.dataPoints)
    ensures app.exit == old(app.exit)
  {
    app.HandleEvent(Tab);
    app.HandleEvent(Tab);
  }
}

/** The widget of src/bonus/widget.cpp: a name and a visibility flag,
    saved as the name then the flag. Its observer notifications and
    console output are not modelled. */
module Widget {
  import opened Wrappers
  import opened Bytes
  import M = Memento
  import DB = DataBuffer

  datatype Widget = Widget(name: seq<byte>, visible: bool)

  /** The constructor: the given name, visible. */
  function New(name: seq<byte>): (r: Widget)
    ensures GetName(r) == name && IsVisible(r)
  {
    Widget(name, true)
  }

  function Show(w: Widget): (r: Widget)
    ensures IsVisible(r) && GetName(r) == GetName(w)
  {
    w.(visible := true)
  }

  function Hide(w: Widget): (r: Widget)
    ensures !IsVisible(r) && GetName(r) == GetName(w)
  {
    w.(visible := false)
  }

  function GetName(w: Widget): seq<byte> { w.name }
  function IsVisible(w: Widget): bool { w.visible }

  /** `render` draws only a visible widget. */
  predicate Renders(w: Widget) {
    w.visible
  }

  /** `render` draws exactly the widgets `isVisible` reports: every one
      after `show`, none after `hide`; neither changes what `getName`
      returns. */
  lemma RendersIffVisible(w: Widget)
    ensures Renders(w) <==> IsVisible(w)
    ensures Renders(Show(w)) && !Renders(Hide(w))
    ensures GetName(Show(Hide(w))) == GetName(w)
  {
  }

  /** `_saveToSnapshot`: the name as a string, then the flag. */
  function Fields(w: Widget): seq<M.Value>
    requires |w.name| < TWO_64
  {
    [M.StringValue(w.name), M.BoolValue(w.visible)]
  }

  /** `Memento::save` of a widget. */
  function Save(w: Widget): (r: M.Snapshot)
    requires |w.name| < TWO_64
    ensures r.Valid() && r.Unread() == DB.EncodeString(w.name) + EncodeBool(w.visible)
  {
    var fs := Fields(w);
    assert M.EncodeValues(fs[1..]) == EncodeBool(w.visible) + [];
    M.Save(fs)
  }

  /** `Memento::load` of a widget: the name, then the flag, from a copy of
      the snapshot. String `>>` resizes the name to the announced length
      before it checks the content, so a snapshot whose string is cut short
      leaves the name resized (cut or NUL-padded) behind the error; one that
      holds a name but no flag leaves the new name and the old flag. */
  function Load(w: Widget, s: M.Snapshot): (r: Step<(), DB.Error, Widget>)
    requires s.Valid()
    ensures |s.Unread()| < 8 ==> r.result.Err? && r.state == w
    ensures |s.Unread()| >= 8 && M.LoadString(s).result.Err? ==>
              && r.result.Err?
              && r.state == w.(name := DB.Resized(w.name, DecodeLE(s.Unread()[..8])))
    ensures r.result.Ok? ==>
              && M.LoadString(s).result.Ok?
              && r.state.name == M.LoadString(s).result.value
              && M.LoadBool(M.LoadString(s).state).result == Ok(r.state.visible)
    ensures M.LoadString(s).result.Ok? && r.result.Err? ==>
              r.state == w.(name := M.LoadString(s).result.value)
  {
    var copy := M.Assign(s, s);
    var n := M.LoadString(copy);
    match n.result
    case Err(e) => Step(Err(e), w.(name := M.LoadStringInto(copy, w.name)))
    case Ok(name) =>
      var w1 := w.(name := name);
      var v := M.LoadBool(n.state);
      match v.result
      case Err(e) => Step(Err(e), w1)
      case Ok(visible) => Step(Ok(()), w1.(visible := visible))
  }

  /** A widget named "hello" loading a snapshot that announces a 2-byte
      name but holds only one byte after the length ends up named "he". */
  lemma ShortNameExample()
    ensures var s := M.Snapshot(DB.Buffer(EncodeU64(2) + [104], 0, 9));
            var r := Load(Widget([104, 101, 108, 108, 111], true), s);
            r.result.Err? && r.state == Widget([104, 101], true)
  {
    var u := EncodeU64(2) + [104];
    assert u[..8] == EncodeU64(2);
  }

  /** Loading what a widget saved gives that widget back, whatever widget
      loads it. */
  lemma LoadSaved(w: Widget, other: Widget)
    requires |w.name| < TWO_64
    ensures Load(other, Save(w)) == Step(Ok(()), w)
  {
    var s := Save(w);
    DB.ReadStringWritten(s.buffer, w.name, EncodeBool(w.visible));
    var s1 := M.LoadString(s).state;
    assert s1.Unread() == EncodeBool(w.visible) + [];
    DB.ReadBoolWritten(s1.buffer, w.visible, []);
  }
}

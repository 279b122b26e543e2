/**
 * The button group that hosts the two copy buttons and the transient status
 * messages. Its child list is changed in place: showing a message removes
 * every loading/success/error child and appends the new one; removing a
 * message element takes it out of the list if it is still there.
 */
module StatusArea {

  /** The class name of a status message, which is also its type. */
  datatype Kind = Loading | Success | Error

  /**
   * A child of the group: a copy button, or a status message. `id` gives a
   * message element its identity; `autoRemove` records that a 3-second
   * timer will remove it (every kind but `Loading`).
   */
  datatype Node =
    | Button(name: string)
    | Message(id: nat, kind: Kind, text: string, autoRemove: bool)

  /** The status messages among the children, in order. */
  function Messages(cs: seq<Node>): (r: seq<Node>)
    ensures |r| <= |cs|
    ensures forall i :: 0 <= i < |r| ==> r[i].Message?
  {
    if cs == [] then []
    else Messages(cs[..|cs| - 1]) + (if cs[|cs| - 1].Message? then [cs[|cs| - 1]] else [])
  }

  /** The children that are not status messages, in order. */
  function Controls(cs: seq<Node>): (r: seq<Node>)
    ensures forall i :: 0 <= i < |r| ==> !r[i].Message?
  {
    if cs == [] then []
    else Controls(cs[..|cs| - 1]) + (if cs[|cs| - 1].Message? then [] else [cs[|cs| - 1]])
  }

  /** The children without the message element `id`. */
  function Without(cs: seq<Node>, id: nat): (r: seq<Node>)
    ensures forall i :: 0 <= i < |r| ==> r[i] in cs
  {
    if cs == [] then []
    else
      var last := cs[|cs| - 1];
      Without(cs[..|cs| - 1], id) + (if last.Message? && last.id == id then [] else [last])
  }

  /** `Messages` is exactly the selector's result: every status message among the children, and nothing else. */
  lemma {:induction false} MessagesSelectsAll(cs: seq<Node>)
    ensures forall x :: x in Messages(cs) <==> x in cs && x.Message?
  {
    if cs != [] {
      var init, last := cs[..|cs| - 1], cs[|cs| - 1];
      MessagesSelectsAll(init);
      assert cs == init + [last];
      assert Messages(cs) == Messages(init) + (if last.Message? then [last] else []);
    }
  }

  /** `Controls` keeps every child that is not a status message, and only those. */
  lemma {:induction false} ControlsKeepsAll(cs: seq<Node>)
    ensures forall x :: x in Controls(cs) <==> x in cs && !x.Message?
  {
    if cs != [] {
      var init, last := cs[..|cs| - 1], cs[|cs| - 1];
      ControlsKeepsAll(init);
      assert cs == init + [last];
      assert Controls(cs) == Controls(init) + (if last.Message? then [] else [last]);
    }
  }

  /** At most one selected message means every status message among the children is the same one. */
  lemma AtMostOneMessage(cs: seq<Node>)
    requires |Messages(cs)| <= 1
    ensures forall x, y :: x in cs && y in cs && x.Message? && y.Message? ==> x == y
  {
    MessagesSelectsAll(cs);
  }

  lemma {:induction false} ControlsHaveNoMessages(cs: seq<Node>)
    ensures Messages(Controls(cs)) == []
    ensures Controls(Controls(cs)) == Controls(cs)
  {
    if cs != [] {
      var init, last := cs[..|cs| - 1], cs[|cs| - 1];
      ControlsHaveNoMessages(init);
      var c := Controls(init);
      if !last.Message? {
        assert Controls(cs) == c + [last];
        assert (c + [last])[..|c|] == c;
        assert Messages(c + [last]) == Messages(c);
        assert Controls(c + [last]) == Controls(c) + [last];
      } else {
        assert Controls(cs) == c + [];
        assert c + [] == c;
      }
    }
  }

  /** After the new message is appended to the controls, it is the only message and the controls are unchanged. */
  lemma AppendedMessageIsOnly(cs: seq<Node>, m: Node)
    requires m.Message?
    ensures Messages(Controls(cs) + [m]) == [m]
    ensures Controls(Controls(cs) + [m]) == Controls(cs)
    ensures forall i :: 0 <= i < |Controls(cs) + [m]| && (Controls(cs) + [m])[i].Message? ==> (Controls(cs) + [m])[i] == m
  {
    var c := Controls(cs);
    ControlsHaveNoMessages(cs);
    assert (c + [m])[..|c|] == c;
    assert forall j :: 0 <= j < |c| ==> (c + [m])[j] == c[j];
  }

  /** Removing a message that is not among the children changes nothing. */
  lemma {:induction false} WithoutAbsent(cs: seq<Node>, id: nat)
    requires forall i :: 0 <= i < |cs| && cs[i].Message? ==> cs[i].id != id
    ensures Without(cs, id) == cs
  {
    if cs != [] {
      assert forall i :: 0 <= i < |cs| - 1 ==> cs[..|cs| - 1][i] == cs[i];
      WithoutAbsent(cs[..|cs| - 1], id);
      assert cs[..|cs| - 1] + [cs[|cs| - 1]] == cs;
    }
  }

  /** Removing the last message of a list whose other children are controls leaves the controls. */
  lemma WithoutAppended(cs: seq<Node>, m: Node)
    requires m.Message?
    ensures Without(Controls(cs) + [m], m.id) == Controls(cs)
  {
    var c := Controls(cs);
    assert (c + [m])[..|c|] == c;
    WithoutAbsent(c, m.id);
  }

  lemma {:induction false} WithoutKeepsControls(cs: seq<Node>, id: nat)
    ensures Controls(Without(cs, id)) == Controls(cs)
    ensures |Messages(Without(cs, id))| <= |Messages(cs)|
  {
    if cs != [] {
      var init, last := cs[..|cs| - 1], cs[|cs| - 1];
      WithoutKeepsControls(init, id);
      var w := Without(init, id);
      if !(last.Message? && last.id == id) {
        assert Without(cs, id) == w + [last];
        assert (w + [last])[..|w|] == w;
        assert Controls(w + [last]) == Controls(w) + (if last.Message? then [] else [last]);
        assert Messages(w + [last]) == Messages(w) + (if last.Message? then [last] else []);
      } else {
        assert Without(cs, id) == w + [];
        assert w + [] == w;
        assert Controls(cs) == Controls(init) + [];
        assert Messages(cs) == Messages(init) + [last];
      }
    }
  }

  /** The children that survive `forEach(msg => msg.remove())` over the loading/success/error elements. */
  method DropMessages(cs: seq<Node>) returns (kept: seq<Node>)
    ensures kept == Controls(cs)
  {
    kept := [];
    var i := 0;
    while i < |cs|
      invariant 0 <= i <= |cs|
      invariant kept == Controls(cs[..i])
    {
      assert cs[..i + 1][..i] == cs[..i];
      if !cs[i].Message? {
        kept := kept + [cs[i]];
      }
      i := i + 1;
    }
    assert cs[..i] == cs;
  }

  class ButtonGroup {
    var children: seq<Node>
    /** The identity the next message element will get. */
    var nextId: nat

    /** At most one status message is shown, and every message id is below `nextId`. */
    ghost predicate Valid()
      reads this
    {
      && |Messages(children)| <= 1
      && forall i :: 0 <= i < |children| && children[i].Message? ==> children[i].id < nextId
    }

    /** The group as first built: the text button and the image button. */
    constructor ()
      ensures Valid()
      ensures children == [Button("copyText"), Button("copyImage")] && nextId == 0
    {
      children := [Button("copyText"), Button("copyImage")];
      nextId := 0;
      new;
      assert Messages(children) == Messages([Button("copyText")]) == [];
    }

    /**
     * Removes every status message, appends a new one of the given kind and
     * text, flagged for auto-removal unless it is a loading message, and
     * returns its id. Afterwards it is the only message; the buttons are untouched.
     */
    method ShowMessage(kind: Kind, text: string) returns (id: nat)
      requires Valid()
      modifies this
      ensures Valid()
      ensures id == old(nextId) && nextId == id + 1
      ensures children == Controls(old(children)) + [Message(id, kind, text, kind != Loading)]
    {
      var kept := DropMessages(children);
      id := nextId;
      var m := Message(id, kind, text, kind != Loading);
      AppendedMessageIsOnly(children, m);
      children := kept + [m];
      nextId := nextId + 1;
    }

    /** `message.remove()`: takes the message element `id` out of the group if it is still there. */
    method RemoveMessage(id: nat)
      requires Valid()
      modifies this
      ensures Valid()
      ensures nextId == old(nextId)
      ensures children == Without(old(children), id)
    {
      WithoutKeepsControls(children, id);
      children := Without(children, id);
    }
  }
}

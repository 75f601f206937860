/** The variable scope stack of modules/scope.py: a stack of frames (name to
    value dictionaries), the innermost frame last. */
module Scopes {
  import opened Python

  type Frames<V> = seq<map<string, V>>

  /** Index of the innermost frame that binds `name`, if any. */
  function Innermost<V>(st: Frames<V>, name: string): (r: Option<nat>)
    ensures r.Some? ==>
      r.value < |st| && name in st[r.value] && forall j :: r.value < j < |st| ==> name !in st[j]
    ensures r.None? ==> forall j :: 0 <= j < |st| ==> name !in st[j]
  {
    if st == [] then None
    else if name in st[|st| - 1] then Some(|st| - 1)
    else Innermost(st[..|st| - 1], name)
  }

  /** What `get_var(name)` returns: the innermost binding, or None. */
  function Lookup<V>(st: Frames<V>, name: string): Option<V>
  {
    match Innermost(st, name)
    case Some(i) => Some(st[i][name])
    case None => None
  }

  /** The stack after `set_var(name, value)`: the innermost frame that holds
      the name is overwritten, or else the top frame gains it. */
  function Assign<V>(st: Frames<V>, name: string, value: V): Frames<V>
    requires |st| >= 1
  {
    match Innermost(st, name)
    case Some(i) => st[i := st[i][name := value]]
    case None => st[|st| - 1 := st[|st| - 1][name := value]]
  }

  /** The stack after `del_var(name)`: the name is gone from every frame. */
  function Unbind<V>(st: Frames<V>, name: string): Frames<V>
  {
    seq(|st|, i requires 0 <= i < |st| => st[i] - {name})
  }

  /** `get_var` finds the binding of the innermost frame holding the name,
      and None exactly when no frame holds it. */
  lemma LookupMeaning<V>(st: Frames<V>, name: string, i: nat)
    requires i < |st| && name in st[i] && forall j :: i < j < |st| ==> name !in st[j]
    ensures Lookup(st, name) == Some(st[i][name])
  {
  }

  lemma LookupNone<V>(st: Frames<V>, name: string)
    ensures Lookup(st, name).None? <==> forall j :: 0 <= j < |st| ==> name !in st[j]
  {
  }

  /** After `set_var(n, v)`, `get_var(n)` is `v`. */
  lemma GetAfterSet<V>(st: Frames<V>, name: string, value: V)
    requires |st| >= 1
    ensures Lookup(Assign(st, name, value), name) == Some(value)
  {
    var r := Assign(st, name, value);
    match Innermost(st, name)
    case Some(i) =>
      assert forall j :: i < j < |r| ==> r[j] == st[j];
      LookupMeaning(r, name, i);
    case None =>
      LookupMeaning(r, name, |r| - 1);
  }

  /** `set_var` keeps the number of frames and changes exactly one frame, in
      the binding of that one name. */
  lemma AssignTouchesOneFrame<V>(st: Frames<V>, name: string, value: V)
    requires |st| >= 1
    ensures |Assign(st, name, value)| == |st|
    ensures var k := if Innermost(st, name).Some? then Innermost(st, name).value else |st| - 1;
      Assign(st, name, value)[k] == st[k][name := value]
      && forall j :: 0 <= j < |st| && j != k ==> Assign(st, name, value)[j] == st[j]
  {
  }

  /** Setting one name leaves what every other name looks up to. */
  lemma {:induction false} AssignOtherName<V>(st: Frames<V>, name: string, value: V, other: string)
    requires |st| >= 1 && other != name
    ensures Lookup(Assign(st, name, value), other) == Lookup(st, other)
  {
    var r := Assign(st, name, value);
    assert forall j :: 0 <= j < |st| ==> (other in r[j] <==> other in st[j]) && (other in st[j] ==> r[j][other] == st[j][other]);
    match Innermost(st, other)
    case Some(i) => LookupMeaning(r, other, i);
    case None => LookupNone(r, other);
  }

  /** After `del_var(n)`, `get_var(n)` is None, and the frame count is kept. */
  lemma GetAfterDel<V>(st: Frames<V>, name: string)
    ensures |Unbind(st, name)| == |st|
    ensures Lookup(Unbind(st, name), name) == None
  {
    LookupNone(Unbind(st, name), name);
  }

  /** Entering a frame hides nothing, and leaving it again restores the stack. */
  lemma EnterLookup<V>(st: Frames<V>, name: string)
    ensures Lookup(st + [map[]], name) == Lookup(st, name)
    ensures (st + [map[]])[..|st|] == st
  {
    assert (st + [map[]])[..|st|] == st;
  }

  class Scope<V> {
    var stack: Frames<V>

    /** A fresh scope has the one empty global frame. */
    constructor ()
      ensures stack == [map[]]
    {
      stack := [map[]];
    }

    method Enter()
      modifies this
      ensures stack == old(stack) + [map[]]
    {
      stack := stack + [map[]];
    }

    /** `leave` pops the innermost frame; popping an empty stack raises. */
    method Leave()
      requires |stack| >= 1
      modifies this
      ensures stack == old(stack)[..|old(stack)| - 1]
    {
      stack := stack[..|stack| - 1];
    }

    /** `get_var`: search the frames from the innermost outwards. */
    method GetVar(name: string) returns (r: Option<V>)
      ensures r == Lookup(stack, name)
    {
      var i := |stack|;
      while i > 0
        invariant 0 <= i <= |stack|
        invariant forall j :: i <= j < |stack| ==> name !in stack[j]
      {
        i := i - 1;
        if name in stack[i] {
          LookupMeaning(stack, name, i);
          return Some(stack[i][name]);
        }
      }
      LookupNone(stack, name);
      r := None;
    }

    /** `set_var`: overwrite in the innermost frame holding the name, or bind
        it in the top frame. */
    method SetVar(name: string, value: V)
      requires |stack| >= 1
      modifies this
      ensures stack == Assign(old(stack), name, value)
    {
      var i := |stack|;
      while i > 0
        invariant 0 <= i <= |stack| && stack == old(stack)
        invariant forall j :: i <= j < |stack| ==> name !in stack[j]
      {
        i := i - 1;
        if name in stack[i] {
          assert Innermost(stack, name) == Some(i) by {
            InnermostIs(stack, name, i);
          }
          stack := stack[i := stack[i][name := value]];
          return;
        }
      }
      stack := stack[|stack| - 1 := stack[|stack| - 1][name := value]];
    }

    /** `del_var`: remove the name from every frame, outermost first. */
    method DelVar(name: string)
      modifies this
      ensures stack == Unbind(old(stack), name)
    {
      var i := 0;
      while i < |stack|
        invariant 0 <= i <= |stack| && |stack| == |old(stack)|
        invariant forall j :: 0 <= j < i ==> stack[j] == old(stack)[j] - {name}
        invariant forall j :: i <= j < |stack| ==> stack[j] == old(stack)[j]
      {
        if name in stack[i] {
          stack := stack[i := stack[i] - {name}];
        } else {
          assert stack[i] - {name} == stack[i];
        }
        i := i + 1;
      }
    }
  }

  lemma InnermostIs<V>(st: Frames<V>, name: string, i: nat)
    requires i < |st| && name in st[i] && forall j :: i < j < |st| ==> name !in st[j]
    ensures Innermost(st, name) == Some(i)
  {
    var r := Innermost(st, name);
    assert r.Some?;
  }
}

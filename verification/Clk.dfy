/** Reference counts in a tree of clocks (src/driver/clk/clk.c); src/driver/regulator/regulator.c is
    the same algorithm for power supplies. */
module Clk {
  import opened Wrappers

  /** Names are only compared with one another. */
  type Name = int

  /** The registered clocks by name, with the name of each one's parent, which need not be registered.
      `rank` shows that no clock is its own ancestor; the clocks in `gated` can be switched. */
  datatype Tree = Tree(parent: map<Name, Option<Name>>, rank: map<Name, nat>, gated: set<Name>)
  {
    predicate Valid() {
      && rank.Keys == parent.Keys
      && forall c :: c in parent && Parent(c).Some? ==> rank[Parent(c).value] < rank[c]
    }

    /** The parent of a clock, if it is registered. */
    function Parent(c: Name): (p: Option<Name>)
      requires c in parent
      ensures p.Some? ==> p.value in parent
    {
      if parent[c].Some? && parent[c].value in parent then parent[c] else None
    }

    predicate Child(c: Name, p: Name) {
      c in parent && parent[c] == Some(p)
    }

    /** `p` is the parent of `c`, and has no registered parent itself. */
    predicate TopChild(c: Name, p: Name) {
      Child(c, p) && p in parent && Parent(p).None?
    }
  }

  /** How often each clock is enabled, and whether the hardware has it running. */
  datatype State = State(count: map<Name, nat>, on: map<Name, bool>)
  {
    predicate For(t: Tree) {
      count.Keys == t.parent.Keys && on.Keys == t.parent.Keys
    }
  }

  function Switched(t: Tree, s: State, name: Name, enable: bool): State
  {
    if name in t.gated then s.(on := s.on[name := enable]) else s
  }

  /** Enabling a clock enables its ancestors first. */
  function Enabled(t: Tree, s: State, name: Name): (r: State)
    requires t.Valid() && s.For(t)
    ensures r.For(t)
    decreases if name in t.rank then t.rank[name] + 1 else 0
  {
    if name !in t.parent then s
    else
      var up := if t.parent[name].Some? then Enabled(t, s, t.parent[name].value) else s;
      var sw := Switched(t, up, name, true);
      sw.(count := sw.count[name := sw.count[name] + 1])
  }

  /** Disabling a clock that is then no longer in use disables its parent. */
  function Disabled(t: Tree, s: State, name: Name): (r: State)
    requires t.Valid() && s.For(t)
    ensures r.For(t)
    decreases if name in t.rank then t.rank[name] + 1 else 0
  {
    if name !in t.parent then s
    else
      var s1 := if s.count[name] > 0 then s.(count := s.count[name := s.count[name] - 1]) else s;
      if s1.count[name] > 0 then s1
      else
        var up := if t.parent[name].Some? then Disabled(t, s1, t.parent[name].value) else s1;
        Switched(t, up, name, false)
  }

  /** Whether a clock and all its ancestors are running. */
  predicate Status(t: Tree, s: State, name: Name)
    requires t.Valid() && s.For(t)
    decreases if name in t.rank then t.rank[name] + 1 else 0
  {
    && name in t.parent
    && s.on[name]
    && (t.parent[name].Some? ==> Status(t, s, t.parent[name].value))
  }

  // The invariant

  /** The children of a clock that are in use. */
  function Active(t: Tree, count: map<Name, nat>, p: Name): set<Name>
    requires count.Keys == t.parent.Keys
  {
    set c | c in t.parent && t.Child(c, p) && count[c] > 0
  }

  /** Each clock's count covers its active children and the `held` enables of its own users. */
  ghost predicate Covered(t: Tree, s: State, held: map<Name, nat>) {
    s.For(t) && held.Keys == t.parent.Keys && AllCover(t, s.count, held)
  }

  ghost predicate AllCover(t: Tree, count: map<Name, nat>, held: map<Name, nat>)
    requires count.Keys == held.Keys == t.parent.Keys
  {
    forall p :: p in t.parent ==> Covers(t, count, held, p)
  }

  ghost predicate Covers(t: Tree, count: map<Name, nat>, held: map<Name, nat>, p: Name)
    requires count.Keys == held.Keys == t.parent.Keys && p in t.parent
  {
    |Active(t, count, p)| + held[p] <= count[p]
  }

  /** Whatever is in use is running. */
  ghost predicate Running(t: Tree, s: State) {
    && s.For(t)
    && forall c :: c in t.parent && (s.count[c] > 0 || c !in t.gated) ==> s.on[c]
  }

  lemma ActiveAfter(t: Tree, count: map<Name, nat>, c: Name, n: nat, p: Name)
    requires count.Keys == t.parent.Keys && c in t.parent
    ensures var a, b := Active(t, count, p), Active(t, count[c := n], p);
      && (!t.Child(c, p) ==> a == b)
      && (t.Child(c, p) ==> b == if n > 0 then a + {c} else a - {c})
      && (t.Child(c, p) && (n > 0 <==> count[c] > 0) ==> a == b)
  {
  }

  lemma ActiveSize(t: Tree, count: map<Name, nat>, c: Name, n: nat, p: Name)
    requires count.Keys == t.parent.Keys && c in t.parent
    ensures var a, b := |Active(t, count, p)|, |Active(t, count[c := n], p)|;
      && (!t.Child(c, p) || (n > 0 <==> count[c] > 0) ==> a == b)
      && (t.Child(c, p) && n > 0 ==> b <= a + 1)
      && (t.Child(c, p) && n == 0 && count[c] > 0 ==> b == a - 1)
  {
    ActiveAfter(t, count, c, n, p);
  }

  function Plus(m: map<Name, nat>, x: Option<Name>): (r: map<Name, nat>)
    requires x.Some? ==> x.value in m
    ensures r.Keys == m.Keys
  {
    if x.Some? then m[x.value := m[x.value] + 1] else m
  }

  function Minus(m: map<Name, nat>, x: Name): (r: map<Name, nat>)
    requires x in m && m[x] > 0
    ensures r.Keys == m.Keys
  {
    m[x := m[x] - 1]
  }

  /** A clock counts up after its parent has. */
  lemma CountUp(t: Tree, count: map<Name, nat>, held: map<Name, nat>, name: Name, p: Name)
    requires t.Valid() && count.Keys == held.Keys == t.parent.Keys && name in t.parent && p in t.parent
    requires Covers(t, count, Plus(held, t.Parent(name)), p)
    ensures Covers(t, Plus(count, Some(name)), Plus(held, Some(name)), p)
  {
    ActiveSize(t, count, name, count[name] + 1, p);
  }

  lemma AllCountUp(t: Tree, count: map<Name, nat>, held: map<Name, nat>, name: Name)
    requires t.Valid() && count.Keys == held.Keys == t.parent.Keys && name in t.parent
    requires AllCover(t, count, Plus(held, t.Parent(name)))
    ensures AllCover(t, Plus(count, Some(name)), Plus(held, Some(name)))
  {
    forall p | p in t.parent ensures Covers(t, Plus(count, Some(name)), Plus(held, Some(name)), p) {
      assert Covers(t, count, Plus(held, t.Parent(name)), p);
      CountUp(t, count, held, name, p);
    }
  }

  lemma EnabledCounts(t: Tree, s: State, name: Name)
    requires t.Valid() && s.For(t) && name in t.parent
    ensures var up := if t.Parent(name).Some? then Enabled(t, s, t.Parent(name).value) else s;
      Enabled(t, s, name).count == Plus(up.count, Some(name))
  {
  }

  /** Enabling adds one to what the user of the clock holds. */
  lemma {:induction false} EnableKeepsCovered(t: Tree, s: State, held: map<Name, nat>, name: Name)
    requires t.Valid() && Covered(t, s, held) && name in t.parent
    ensures Covered(t, Enabled(t, s, name), Plus(held, Some(name)))
    decreases t.rank[name]
  {
    EnabledCounts(t, s, name);
    if t.Parent(name).Some? {
      EnableKeepsCovered(t, s, held, t.Parent(name).value);
      AllCountUp(t, Enabled(t, s, t.Parent(name).value).count, held, name);
    } else {
      AllCountUp(t, s.count, held, name);
    }
  }

  /** A clock counts down; if it is then no longer in use, its parent has one to give up. */
  lemma CountDown(t: Tree, count: map<Name, nat>, held: map<Name, nat>, name: Name, p: Name)
    requires t.Valid() && count.Keys == held.Keys == t.parent.Keys && name in t.parent && p in t.parent
    requires count[name] > 0 && held[name] > 0 && Covers(t, count, held, p)
    ensures Covers(t, Minus(count, name), Plus(Minus(held, name), if count[name] == 1 then t.Parent(name) else None), p)
  {
    hide Active;
    ActiveSize(t, count, name, count[name] - 1, p);
  }

  lemma AllCountDown(t: Tree, count: map<Name, nat>, held: map<Name, nat>, name: Name)
    requires t.Valid() && count.Keys == held.Keys == t.parent.Keys && name in t.parent
    requires held[name] > 0 && AllCover(t, count, held)
    ensures count[name] > 0
    ensures AllCover(t, Minus(count, name), Plus(Minus(held, name), if count[name] == 1 then t.Parent(name) else None))
  {
    assert Covers(t, count, held, name);
    forall p | p in t.parent
      ensures Covers(t, Minus(count, name), Plus(Minus(held, name), if count[name] == 1 then t.Parent(name) else None),
        p)
    {
      CountDown(t, count, held, name, p);
    }
  }

  /** Where a disable goes on to the parent. */
  function Onward(t: Tree, s: State, name: Name): Option<Name>
    requires s.For(t) && name in t.parent
  {
    if s.count[name] <= 1 then t.Parent(name) else None
  }

  lemma DisabledCounts(t: Tree, s: State, name: Name)
    requires t.Valid() && s.For(t) && name in t.parent && s.count[name] > 0
    ensures var s1 := s.(count := Minus(s.count, name));
      Disabled(t, s, name).count == if Onward(t, s, name).Some? then Disabled(t, s1, Onward(t, s, name).value).count
        else s1.count
  {
    var s1 := s.(count := s.count[name := s.count[name] - 1]);
    if s.count[name] > 1 {
      assert Disabled(t, s, name) == s1;
    } else if t.Parent(name).Some? {
      assert Disabled(t, s, name) == Switched(t, Disabled(t, s1, t.Parent(name).value), name, false);
    } else {
      assert Disabled(t, s, name) == Switched(t, s1, name, false);
    }
  }

  /** Disabling takes away one of the enables that the user holds. */
  lemma {:induction false} DisableKeepsCovered(t: Tree, s: State, held: map<Name, nat>, name: Name)
    requires t.Valid() && Covered(t, s, held) && name in t.parent && held[name] > 0
    ensures Covered(t, Disabled(t, s, name), Minus(held, name))
    decreases t.rank[name]
  {
    AllCountDown(t, s.count, held, name);
    DisabledCounts(t, s, name);
    var up := Onward(t, s, name);
    if up.Some? {
      var more := Plus(Minus(held, name), up);
      DisableKeepsCovered(t, s.(count := Minus(s.count, name)), more, up.value);
      assert Minus(more, up.value) == Minus(held, name);
    }
  }

  lemma {:induction false} EnableKeepsRunning(t: Tree, s: State, name: Name)
    requires t.Valid() && Running(t, s)
    ensures Running(t, Enabled(t, s, name))
    decreases if name in t.rank then t.rank[name] + 1 else 0
  {
    if name in t.parent && t.Parent(name).Some? { EnableKeepsRunning(t, s, t.Parent(name).value); }
  }

  /** Disabling changes nothing but the clock and its ancestors. */
  lemma {:induction false} DisableGoesUp(t: Tree, s: State, name: Name, c: Name)
    requires t.Valid() && s.For(t) && c in t.parent && (name in t.rank ==> t.rank[c] > t.rank[name])
    ensures Disabled(t, s, name).count[c] == s.count[c] && Disabled(t, s, name).on[c] == s.on[c]
    decreases if name in t.rank then t.rank[name] + 1 else 0
  {
    if name in t.parent {
      var s1 := if s.count[name] > 0 then s.(count := s.count[name := s.count[name] - 1]) else s;
      if s1.count[name] == 0 && t.Parent(name).Some? { DisableGoesUp(t, s1, t.Parent(name).value, c); }
    }
  }

  lemma {:induction false} DisableKeepsRunning(t: Tree, s: State, name: Name)
    requires t.Valid() && Running(t, s)
    ensures Running(t, Disabled(t, s, name))
    decreases if name in t.rank then t.rank[name] + 1 else 0
  {
    hide Active;
    if name in t.parent {
      var s1 := if s.count[name] > 0 then s.(count := s.count[name := s.count[name] - 1]) else s;
      if s1.count[name] == 0 && t.Parent(name).Some? {
        DisableKeepsRunning(t, s1, t.Parent(name).value);
        DisableGoesUp(t, s1, t.Parent(name).value, name);
      }
    }
  }

  // Runs

  datatype Call = Enable(name: Name) | Disable(name: Name)

  function After(t: Tree, s: State, calls: seq<Call>): (r: State)
    requires t.Valid() && s.For(t)
    ensures r.For(t)
  {
    if calls == [] then s
    else
      var before := After(t, s, calls[..|calls| - 1]);
      match calls[|calls| - 1]
      case Enable(name) => Enabled(t, before, name)
      case Disable(name) => Disabled(t, before, name)
  }

  function Held(calls: seq<Call>, name: Name): int {
    if calls == [] then 0
    else
      Held(calls[..|calls| - 1], name)
      + match calls[|calls| - 1] case Enable(n) => (if n == name then 1 else 0) case Disable(n) => if n == name then -1
        else 0
  }

  /** Nobody disables a clock more often than it was enabled by name. */
  predicate Balanced(t: Tree, calls: seq<Call>) {
    forall i :: 0 <= i < |calls| ==>
      calls[i].name in t.parent && (calls[i].Disable? ==> Held(calls[..i], calls[i].name) > 0)
  }

  predicate Idle(t: Tree, s: State) {
    && s.For(t)
    && forall c :: c in t.parent ==> s.count[c] == 0 && (c !in t.gated ==> s.on[c])
  }

  lemma BalancedPrefix(t: Tree, calls: seq<Call>)
    requires Balanced(t, calls) && calls != []
    ensures Balanced(t, calls[..|calls| - 1])
  {
    var h := calls[..|calls| - 1];
    forall i | 0 <= i < |h| ensures h[i].name in t.parent && (h[i].Disable? ==> Held(h[..i], h[i].name) > 0) {
      assert h[i] == calls[i] && h[..i] == calls[..i];
    }
  }

  lemma {:induction false} HeldIsNat(t: Tree, calls: seq<Call>, name: Name)
    requires Balanced(t, calls)
    ensures Held(calls, name) >= 0
  {
    if calls != [] {
      BalancedPrefix(t, calls);
      HeldIsNat(t, calls[..|calls| - 1], name);
      assert calls[|calls| - 1].Disable? ==> Held(calls[..|calls| - 1], calls[|calls| - 1].name) > 0;
    }
  }

  ghost function HeldNat(t: Tree, calls: seq<Call>, name: Name): (n: nat)
    requires Balanced(t, calls)
    ensures n == Held(calls, name)
  {
    HeldIsNat(t, calls, name);
    Held(calls, name)
  }

  ghost function HeldMap(t: Tree, calls: seq<Call>): (m: map<Name, nat>)
    requires Balanced(t, calls)
    ensures m.Keys == t.parent.Keys && forall c :: c in m ==> m[c] == Held(calls, c)
  {
    map c | c in t.parent :: HeldNat(t, calls, c)
  }

  lemma {:induction false} IdleIsCovered(t: Tree, s: State)
    requires t.Valid() && Idle(t, s)
    ensures Covered(t, s, HeldMap(t, [])) && Running(t, s)
  {
    forall p | p in t.parent ensures Covers(t, s.count, HeldMap(t, []), p) {
      assert Active(t, s.count, p) == {};
    }
  }

  /** What the users hold follows the calls. */
  lemma HeldNext(t: Tree, calls: seq<Call>)
    requires Balanced(t, calls) && calls != []
    ensures var call, h := calls[|calls| - 1], calls[..|calls| - 1];
      && Balanced(t, h) && call.name in t.parent
      && (call.Enable? ==> HeldMap(t, calls) == Plus(HeldMap(t, h), Some(call.name)))
      && (call.Disable? ==> HeldMap(t, h)[call.name] > 0 && HeldMap(t, calls) == Minus(HeldMap(t, h), call.name))
  {
    BalancedPrefix(t, calls);
  }

  /** In every state that balanced users reach, each clock's count covers what its users hold and its
      active children, and whatever is in use is running. */
  lemma {:induction false} RunsAreCovered(t: Tree, s: State, calls: seq<Call>)
    requires t.Valid() && Idle(t, s) && Balanced(t, calls)
    ensures Covered(t, After(t, s, calls), HeldMap(t, calls)) && Running(t, After(t, s, calls))
  {
    if calls == [] {
      IdleIsCovered(t, s);
    } else {
      var h, call := calls[..|calls| - 1], calls[|calls| - 1];
      HeldNext(t, calls);
      RunsAreCovered(t, s, h);
      var before := After(t, s, h);
      match call
      case Enable(name) =>
        EnableKeepsCovered(t, before, HeldMap(t, h), name);
        EnableKeepsRunning(t, before, name);
      case Disable(name) =>
        DisableKeepsCovered(t, before, HeldMap(t, h), name);
        DisableKeepsRunning(t, before, name);
    }
  }

  /** The names of a clock's ancestors are all registered. */
  predicate Rooted(t: Tree, name: Name)
    requires t.Valid()
    decreases if name in t.rank then t.rank[name] + 1 else 0
  {
    name in t.parent && (t.parent[name].Some? ==> Rooted(t, t.parent[name].value))
  }

  /** Where every count covers the active children, a clock in use has its whole line of ancestors in
      use, and they run; so its status is true if and only if all of them are registered. */
  lemma {:induction false} ActiveIsRunning(t: Tree, s: State, held: map<Name, nat>, name: Name)
    requires t.Valid() && Covered(t, s, held) && Running(t, s) && name in t.parent && s.count[name] > 0
    ensures Status(t, s, name) <==> Rooted(t, name)
    ensures t.Parent(name).Some? ==> s.count[t.Parent(name).value] > 0
    decreases t.rank[name]
  {
    if t.Parent(name).Some? {
      var p := t.Parent(name).value;
      assert name in Active(t, s.count, p);
      assert Covers(t, s.count, held, p);
      ActiveIsRunning(t, s, held, p);
    }
  }

  /** A clock that somebody still holds runs, with all its ancestors, whatever the others did; its
      status tells that if and only if they are all registered. */
  lemma HeldClockRuns(t: Tree, s: State, calls: seq<Call>, name: Name)
    requires t.Valid() && Idle(t, s) && Balanced(t, calls) && name in t.parent && Held(calls, name) > 0
    ensures After(t, s, calls).count[name] > 0
    ensures Status(t, After(t, s, calls), name) <==> Rooted(t, name)
  {
    RunsAreCovered(t, s, calls);
    var r := After(t, s, calls);
    assert Covers(t, r.count, HeldMap(t, calls), name);
    ActiveIsRunning(t, r, HeldMap(t, calls), name);
  }

  // What is switched

  /** Outside `but`, a clock that can be switched is on exactly while its count is positive, and the
      others are as they were in `s0`. */
  ghost predicate SwitchedBut(t: Tree, s0: State, s: State, but: set<Name>)
    requires s0.For(t)
  {
    s.For(t) && forall c :: c in t.parent && c !in but ==> SwitchedAt(t, s0, s, c)
  }

  predicate SwitchedAt(t: Tree, s0: State, s: State, c: Name)
    requires s0.For(t) && s.For(t) && c in t.parent
  {
    if c in t.gated then s.on[c] <==> s.count[c] > 0 else s.on[c] == s0.on[c]
  }

  lemma {:induction false} EnableSwitches(t: Tree, s0: State, s: State, name: Name)
    requires t.Valid() && s0.For(t) && SwitchedBut(t, s0, s, {})
    ensures SwitchedBut(t, s0, Enabled(t, s, name), {})
    decreases if name in t.rank then t.rank[name] + 1 else 0
  {
    if name in t.parent {
      var up := if t.parent[name].Some? then Enabled(t, s, t.parent[name].value) else s;
      if t.parent[name].Some? { EnableSwitches(t, s0, s, t.parent[name].value); }
      var r := Enabled(t, s, name);
      forall c | c in t.parent ensures SwitchedAt(t, s0, r, c) { assert SwitchedAt(t, s0, up, c); }
    }
  }

  lemma SwitchOff(t: Tree, s0: State, up: State, name: Name, but: set<Name>)
    requires s0.For(t) && SwitchedBut(t, s0, up, but + {name}) && name in t.parent && up.count[name] == 0
    requires name !in t.gated ==> up.on[name] == s0.on[name]
    ensures SwitchedBut(t, s0, Switched(t, up, name, false), but)
  {
    var r := Switched(t, up, name, false);
    forall c | c in t.parent && c !in but ensures SwitchedAt(t, s0, r, c) {
      if c != name { assert SwitchedAt(t, s0, up, c); }
    }
  }

  /** The clocks in `but` are descendants of `name` that are about to be switched off. */
  lemma {:induction false} DisableSwitches(t: Tree, s0: State, s: State, name: Name, but: set<Name>)
    requires t.Valid() && s0.For(t) && SwitchedBut(t, s0, s, but)
    requires forall c :: c in but && c in t.rank && name in t.rank ==> t.rank[c] > t.rank[name]
    ensures SwitchedBut(t, s0, Disabled(t, s, name), but)
    decreases if name in t.rank then t.rank[name] + 1 else 0, 1
  {
    if name in t.parent {
      assert name !in but;
      assert SwitchedAt(t, s0, s, name);
      var s1 := if s.count[name] > 0 then s.(count := s.count[name := s.count[name] - 1]) else s;
      forall c | c in t.parent && c !in but && (c != name || s1.count[name] > 0) ensures SwitchedAt(t, s0, s1, c) {
        assert SwitchedAt(t, s0, s, c);
      }
      if s1.count[name] == 0 {
        DisableParent(t, s0, s1, name, but);
      }
    }
  }

  lemma {:induction false} DisableParent(t: Tree, s0: State, s1: State, name: Name, but: set<Name>)
    requires t.Valid() && s0.For(t) && name in t.parent && SwitchedBut(t, s0, s1, but + {name})
    requires s1.count[name] == 0 && (name !in t.gated ==> s1.on[name] == s0.on[name])
    requires forall c :: c in but && c in t.rank ==> t.rank[c] > t.rank[name]
    ensures var up := if t.parent[name].Some? then Disabled(t, s1, t.parent[name].value) else s1;
      SwitchedBut(t, s0, Switched(t, up, name, false), but)
    decreases t.rank[name] + 1, 0
  {
    var up := s1;
    if t.parent[name].Some? {
      var p := t.parent[name].value;
      up := Disabled(t, s1, p);
      assert p in t.parent ==> t.Parent(name) == Some(p);
      DisableSwitches(t, s0, s1, p, but + {name});
      DisableGoesUp(t, s1, p, name);
    }
    SwitchOff(t, s0, up, name, but);
  }

  /** Whatever is called from rest with the clocks that can be switched off, such a clock is on if and
      only if its count is positive; the others stay as they are. */
  lemma OnIsCounted(t: Tree, s: State, calls: seq<Call>)
    requires t.Valid() && s.For(t)
    requires forall c :: c in t.parent ==> s.count[c] == 0 && (c in t.gated ==> !s.on[c])
    ensures var r := After(t, s, calls); forall c :: c in t.parent ==>
      if c in t.gated then r.on[c] <==> r.count[c] > 0 else r.on[c] == s.on[c]
  {
    SwitchedThroughout(t, s, calls);
    var r := After(t, s, calls);
    assert forall c :: c in t.parent ==> SwitchedAt(t, s, r, c);
  }

  lemma {:induction false} SwitchedThroughout(t: Tree, s: State, calls: seq<Call>)
    requires t.Valid() && s.For(t)
    requires forall c :: c in t.parent ==> s.count[c] == 0 && (c in t.gated ==> !s.on[c])
    ensures SwitchedBut(t, s, After(t, s, calls), {})
  {
    if calls != [] {
      hide Enabled, Disabled, SwitchedBut;
      var before := After(t, s, calls[..|calls| - 1]);
      SwitchedThroughout(t, s, calls[..|calls| - 1]);
      match calls[|calls| - 1]
      case Enable(name) => EnableSwitches(t, s, before, name);
      case Disable(name) => DisableSwitches(t, s, before, name, {});
    }
  }

  // Which disables are harmless

  function Nothing(t: Tree): (m: map<Name, nat>)
    ensures m.Keys == t.parent.Keys
  {
    map c | c in t.parent :: 0
  }

  /** Disabling is harmless if the clock's count exceeds its active children; at a count of zero the
      call goes on to the parent. */
  predicate Harmless(t: Tree, s: State, name: Name)
    requires t.Valid() && s.For(t)
    decreases if name in t.rank then t.rank[name] + 1 else 0
  {
    name in t.parent ==>
      if s.count[name] > 0 then s.count[name] > |Active(t, s.count, name)|
      else t.parent[name].Some? ==> Harmless(t, s, t.parent[name].value)
  }

  /** Exactly the harmless disables leave every count covering the active children: a clock that is in
      use only through its children can be switched off under them, and disabling a clock that is not
      in use takes the count of its parent down all the same. */
  lemma {:induction false} DisableKeepsExactly(t: Tree, s: State, name: Name)
    requires t.Valid() && Covered(t, s, Nothing(t))
    ensures Covered(t, Disabled(t, s, name), Nothing(t)) <==> Harmless(t, s, name)
    decreases if name in t.rank then t.rank[name] + 1 else 0
  {
    if name in t.parent {
      if s.count[name] == 0 {
        if t.Parent(name).Some? { DisableKeepsExactly(t, s, t.Parent(name).value); }
      } else if s.count[name] > |Active(t, s.count, name)| {
        var one := Nothing(t)[name := 1];
        forall p | p in t.parent ensures Covers(t, s.count, one, p) { assert Covers(t, s.count, Nothing(t), p); }
        DisableKeepsCovered(t, s, one, name);
        assert Minus(one, name) == Nothing(t);
      } else {
        DisableStrands(t, s, name);
      }
    }
  }

  lemma DisableStrands(t: Tree, s: State, name: Name)
    requires t.Valid() && Covered(t, s, Nothing(t)) && name in t.parent && s.count[name] > 0
    requires s.count[name] <= |Active(t, s.count, name)|
    ensures !Covers(t, Disabled(t, s, name).count, Nothing(t), name)
  {
    var r := Disabled(t, s, name);
    assert Covers(t, s.count, Nothing(t), name);
    forall c | c in t.parent && t.Child(c, name) ensures r.count[c] == s.count[c] { DisableGoesUp(t, s, name, c); }
    assert Active(t, r.count, name) == Active(t, s.count, name);
    var s1 := s.(count := s.count[name := s.count[name] - 1]);
    if s1.count[name] == 0 && t.Parent(name).Some? { DisableGoesUp(t, s1, t.Parent(name).value, name); }
  }

  /** Each disable of the run is harmless where it is made. */
  predicate AllHarmless(t: Tree, s: State, calls: seq<Call>)
    requires t.Valid() && s.For(t)
  {
    calls == [] || (
      var h, call := calls[..|calls| - 1], calls[|calls| - 1];
      AllHarmless(t, s, h) && (call.Disable? ==> Harmless(t, After(t, s, h), call.name)))
  }

  /** After the first `k` of the calls every count covers the active children. */
  ghost predicate CoveredAt(t: Tree, s: State, calls: seq<Call>, k: nat)
    requires t.Valid() && s.For(t) && k <= |calls|
  {
    Covered(t, After(t, s, calls[..k]), Nothing(t))
  }

  ghost predicate CoveredThroughout(t: Tree, s: State, calls: seq<Call>)
    requires t.Valid() && s.For(t)
  {
    forall k :: 0 <= k <= |calls| ==> CoveredAt(t, s, calls, k)
  }

  lemma CoveredThroughoutNext(t: Tree, s: State, calls: seq<Call>)
    requires t.Valid() && s.For(t) && calls != []
    ensures CoveredThroughout(t, s, calls) <==>
      CoveredThroughout(t, s, calls[..|calls| - 1]) && Covered(t, After(t, s, calls), Nothing(t))
  {
    hide After, Covered;
    var n := |calls| - 1;
    assert calls[..|calls|] == calls;
    assert CoveredAt(t, s, calls, |calls|) <==> Covered(t, After(t, s, calls), Nothing(t));
    forall k | 0 <= k <= n ensures CoveredAt(t, s, calls, k) <==> CoveredAt(t, s, calls[..n], k) {
      assert calls[..k] == calls[..n][..k];
    }
  }

  lemma EnableKeepsSound(t: Tree, s: State, name: Name)
    requires t.Valid() && Covered(t, s, Nothing(t))
    ensures Covered(t, Enabled(t, s, name), Nothing(t))
  {
    if name in t.parent {
      EnableKeepsCovered(t, s, Nothing(t), name);
      CoveredByLess(t, Enabled(t, s, name), Plus(Nothing(t), Some(name)));
    }
  }

  /** Whatever is called from rest, the counts cover the active children after each of the calls if and
      only if each disable is harmless where it is made. */
  lemma {:induction false} HarmlessIsCovered(t: Tree, s: State, calls: seq<Call>)
    requires t.Valid() && Idle(t, s)
    ensures AllHarmless(t, s, calls) <==> CoveredThroughout(t, s, calls)
    ensures Running(t, After(t, s, calls))
  {
    hide Enabled, Disabled, Harmless, AllCover, CoveredAt, Running;
    if calls == [] {
      IdleIsCovered(t, s);
      CoveredByLess(t, s, HeldMap(t, []));
      CoveredOnly(t, s);
    } else {
      var h, call := calls[..|calls| - 1], calls[|calls| - 1];
      HarmlessIsCovered(t, s, h);
      CoveredThroughoutNext(t, s, calls);
      var before := After(t, s, h);
      if AllHarmless(t, s, h) { CoveredLast(t, s, h); }
      match call
      case Enable(name) =>
        if AllHarmless(t, s, h) { EnableKeepsSound(t, before, name); }
        EnableKeepsRunning(t, before, name);
      case Disable(name) =>
        if AllHarmless(t, s, h) { DisableKeepsExactly(t, before, name); }
        DisableKeepsRunning(t, before, name);
    }
  }

  lemma CoveredOnly(t: Tree, s: State)
    requires t.Valid() && Covered(t, s, Nothing(t))
    ensures CoveredThroughout(t, s, [])
  {
    forall k | 0 <= k <= 0 ensures CoveredAt(t, s, [], k) { assert After(t, s, [][..k]) == s; }
  }

  lemma CoveredLast(t: Tree, s: State, calls: seq<Call>)
    requires t.Valid() && s.For(t) && CoveredThroughout(t, s, calls)
    ensures Covered(t, After(t, s, calls), Nothing(t))
  {
    assert CoveredAt(t, s, calls, |calls|) && calls[..|calls|] == calls;
  }

  /** So where each disable is harmless, whatever is in use runs, with all its ancestors. */
  lemma HarmlessRunsAreSound(t: Tree, s: State, calls: seq<Call>, name: Name)
    requires t.Valid() && Idle(t, s) && AllHarmless(t, s, calls)
    requires name in t.parent && After(t, s, calls).count[name] > 0
    ensures Covered(t, After(t, s, calls), Nothing(t)) && (Status(t, After(t, s, calls), name) <==> Rooted(t, name))
  {
    HarmlessIsCovered(t, s, calls);
    CoveredLast(t, s, calls);
    ActiveIsRunning(t, After(t, s, calls), Nothing(t), name);
  }

  /** A clock that is in use only because a child of it was enabled. */
  lemma UsedThroughChild(t: Tree, s: State, c: Name, p: Name)
    requires t.Valid() && Idle(t, s) && t.TopChild(c, p) && t.parent[p].None?
    ensures var used := After(t, s, [Enable(c)]);
      && Covered(t, used, Nothing(t)) && Status(t, used, c) && !Harmless(t, used, p)
      && used.count[c] == 1 && used.count[p] == 1
  {
    hide Enabled, Held, HeldMap;
    var calls := [Enable(c)];
    var used := After(t, s, calls);
    assert calls[..0] == [] && After(t, s, []) == s;
    EnabledOnce(t, s, c, p);
    RunsAreCovered(t, s, calls);
    ActiveIsRunning(t, used, HeldMap(t, calls), c);
    CoveredByLess(t, used, HeldMap(t, calls));
    assert c in Active(t, used.count, p);
    assert Covers(t, used.count, Nothing(t), p);
  }

  lemma RootIsOff(t: Tree, s: State, c: Name, p: Name)
    requires t.Valid() && s.For(t) && t.TopChild(c, p) && p in t.gated && s.count[p] == 1
    ensures var r := Disabled(t, s, p); r.count[c] == s.count[c] && !Status(t, r, p) && !Status(t, r, c)
  {
  }

  /** One disable of such a clock, by somebody who never enabled it, switches it off under the child. */
  lemma DisabledUnderChild(t: Tree, s: State, c: Name, p: Name)
    requires t.Valid() && Idle(t, s) && t.TopChild(c, p) && t.parent[p].None? && p in t.gated
    ensures var r := After(t, s, [Enable(c), Disable(p)]);
      r.count[c] == 1 && !Status(t, r, c) && !Covered(t, r, Nothing(t))
  {
    hide Enabled, Active;
    var used := After(t, s, [Enable(c)]);
    assert [Enable(c), Disable(p)][..1] == [Enable(c)];
    UsedThroughChild(t, s, c, p);
    DisableKeepsExactly(t, used, p);
    RootIsOff(t, used, c, p);
  }

  lemma CoveredByLess(t: Tree, s: State, held: map<Name, nat>)
    requires Covered(t, s, held)
    ensures Covered(t, s, Nothing(t))
  {
    forall p | p in t.parent ensures Covers(t, s.count, Nothing(t), p) { assert Covers(t, s.count, held, p); }
  }

  function Repeated(call: Call, n: nat): (calls: seq<Call>)
    ensures |calls| == n && forall i :: 0 <= i < n ==> calls[i] == call
  {
    seq(n, _ => call)
  }

  lemma EnabledOnce(t: Tree, s: State, c: Name, p: Name)
    requires t.Valid() && s.For(t) && t.TopChild(c, p)
    ensures var r := Enabled(t, s, c); r.count[c] == s.count[c] + 1 && r.count[p] == s.count[p] + 1
  {
    EnabledCounts(t, s, c);
    EnabledCounts(t, s, p);
  }

  lemma DisabledOnce(t: Tree, s: State, c: Name, p: Name)
    requires t.Valid() && s.For(t) && t.TopChild(c, p) && 0 < s.count[p] && 0 < s.count[c]
    ensures var r := Disabled(t, s, c);
      r.count[c] == s.count[c] - 1 && r.count[p] == s.count[p] - if s.count[c] == 1 then 1 else 0
  {
    DisabledCounts(t, s, c);
    DisabledCounts(t, s.(count := Minus(s.count, c)), p);
  }

  lemma {:induction false} EnabledRepeatedly(t: Tree, s: State, c: Name, p: Name, n: nat)
    requires t.Valid() && s.For(t) && t.TopChild(c, p)
    ensures var r := After(t, s, Repeated(Enable(c), n)); r.count[c] == s.count[c] + n && r.count[p] == s.count[p] + n
  {
    if n > 0 {
      EnabledRepeatedly(t, s, c, p, n - 1);
      assert Repeated(Enable(c), n)[..n - 1] == Repeated(Enable(c), n - 1);
      EnabledOnce(t, After(t, s, Repeated(Enable(c), n - 1)), c, p);
    } else {
      assert Repeated(Enable(c), n) == [];
    }
  }

  lemma {:induction false} DisabledRepeatedly(t: Tree, s: State, c: Name, p: Name, n: nat)
    requires t.Valid() && s.For(t) && t.TopChild(c, p) && 0 < s.count[p] && n <= s.count[c]
    ensures var r := After(t, s, Repeated(Disable(c), n));
      r.count[c] == s.count[c] - n && r.count[p] == s.count[p] - if 0 < n == s.count[c] then 1 else 0
  {
    if n > 0 {
      DisabledRepeatedly(t, s, c, p, n - 1);
      assert Repeated(Disable(c), n)[..n - 1] == Repeated(Disable(c), n - 1);
      DisabledOnce(t, After(t, s, Repeated(Disable(c), n - 1)), c, p);
    } else {
      assert Repeated(Disable(c), n) == [];
    }
  }

  /** Counts do not come back: a clock enabled n times counts n for its parent, but gives back one
      when it has been disabled as often. */
  lemma RepeatedEnablesLeak(t: Tree, s: State, c: Name, p: Name, n: nat)
    requires t.Valid() && s.For(t) && t.TopChild(c, p) && s.count[c] == 0 && n > 0
    ensures var r := After(t, After(t, s, Repeated(Enable(c), n)), Repeated(Disable(c), n));
      r.count[c] == 0 && r.count[p] == s.count[p] + n - 1
  {
    EnabledRepeatedly(t, s, c, p, n);
    DisabledRepeatedly(t, After(t, s, Repeated(Enable(c), n)), c, p, n);
  }

  /** The registry of clocks and the hardware behind it. */
  class Registry {
    const tree: Tree
    var count: map<Name, nat>
    var on: map<Name, bool>

    ghost predicate Valid()
      reads this
    {
      tree.Valid() && Now().For(tree)
    }

    function Now(): State
      reads this
    {
      State(count, on)
    }

    constructor (tree: Tree, on: map<Name, bool>)
      requires tree.Valid() && on.Keys == tree.parent.Keys
      ensures Valid() && this.tree == tree && Now() == State(Nothing(tree), on)
    {
      this.tree, this.on, count := tree, on, Nothing(tree);
    }

    method SetEnable(name: Name, enable: bool)
      requires Valid() && name in tree.parent
      modifies this`on
      ensures Valid() && Now() == Switched(tree, old(Now()), name, enable)
    {
      if name in tree.gated {
        on := on[name := enable];
      }
    }

    method ClkEnable(name: Name)
      requires Valid()
      modifies this
      ensures Valid() && Now() == Enabled(tree, old(Now()), name)
      decreases if name in tree.rank then tree.rank[name] + 1 else 0
    {
      if name !in tree.parent {
        return;
      }
      if tree.parent[name].Some? {
        ClkEnable(tree.parent[name].value);
      }
      SetEnable(name, true);
      count := count[name := count[name] + 1];
    }

    method ClkDisable(name: Name)
      requires Valid()
      modifies this
      ensures Valid() && Now() == Disabled(tree, old(Now()), name)
      decreases if name in tree.rank then tree.rank[name] + 1 else 0
    {
      hide Switched;
      if name !in tree.parent {
        return;
      }
      if count[name] > 0 {
        count := count[name := count[name] - 1];
      }
      if count[name] == 0 {
        if tree.parent[name].Some? {
          ClkDisable(tree.parent[name].value);
        }
        SetEnable(name, false);
      }
    }
  }
}

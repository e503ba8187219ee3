/** The browser-side list of stored candidates: a single sequence that can be
    replaced wholesale, prepended to, or emptied. The store never looks inside
    an entry, so the entry type is a parameter. */
module CandidateStore {
  import opened Outcomes

  datatype Store<T> = Store(candidates: seq<T>)

  /** A fresh store holds no candidates. */
  function Init<T>(): (s: Store<T>)
    ensures |s.candidates| == 0
  {
    Store([])
  }

  /** `setAll(list)`: the new list replaces whatever was there; an absent
      list (`null` or `undefined`) empties the store. */
  function SetAll<T>(s: Store<T>, list: Option<seq<T>>): (r: Store<T>)
    ensures list.Some? ==> r.candidates == list.value
    ensures list.None? ==> r == Init()
  {
    match list
    case None => Store([])
    case Some(l) => Store(l)
  }

  /** `add(c)`: the new candidate goes first and every earlier one follows in
      its old order. */
  function Add<T>(s: Store<T>, c: T): (r: Store<T>)
    ensures |r.candidates| == |s.candidates| + 1
    ensures r.candidates[0] == c && r.candidates[1..] == s.candidates
  {
    Store([c] + s.candidates)
  }

  /** `clear()`: back to the initial, empty store. */
  function Clear<T>(s: Store<T>): (r: Store<T>)
    ensures r == Init()
  {
    Store([])
  }

  datatype Action<T> = SetAllAction(list: Option<seq<T>>) | AddAction(item: T) | ClearAction

  function Apply<T>(s: Store<T>, a: Action<T>): Store<T> {
    match a
    case SetAllAction(list) => SetAll(s, list)
    case AddAction(c) => Add(s, c)
    case ClearAction => Clear(s)
  }

  /** The store after the actions, in order. */
  function Run<T>(s: Store<T>, actions: seq<Action<T>>): Store<T>
    decreases |actions|
  {
    if |actions| == 0 then s else Run(Apply(s, actions[0]), actions[1..])
  }

  /** Adding each of `items` in turn. */
  function Adds<T>(items: seq<T>): (r: seq<Action<T>>)
    ensures |r| == |items|
    ensures forall i :: 0 <= i < |items| ==> r[i] == AddAction(items[i])
  {
    seq(|items|, i requires 0 <= i < |items| => AddAction(items[i]))
  }

  /** Reference definition of reversal, last element first. */
  function Reverse<T>(xs: seq<T>): seq<T> {
    if |xs| == 0 then [] else Reverse(xs[1..]) + [xs[0]]
  }

  lemma {:induction false} ReverseLength<T>(xs: seq<T>)
    ensures |Reverse(xs)| == |xs|
    ensures forall i :: 0 <= i < |xs| ==> Reverse(xs)[i] == xs[|xs| - 1 - i]
  {
    if |xs| > 0 {
      ReverseLength(xs[1..]);
    }
  }

  /** Running one batch of actions and then another is running them together. */
  lemma {:induction false} RunAppend<T>(s: Store<T>, a: seq<Action<T>>, b: seq<Action<T>>)
    ensures Run(s, a + b) == Run(Run(s, a), b)
    decreases |a|
  {
    if |a| == 0 {
      assert a + b == b;
    } else {
      assert (a + b)[1..] == a[1..] + b;
      RunAppend(Apply(s, a[0]), a[1..], b);
    }
  }

  lemma AddsSplit<T>(items: seq<T>)
    requires |items| > 0
    ensures Adds(items) == [AddAction(items[0])] + Adds(items[1..])
  {
  }

  lemma RunFirst<T>(s: Store<T>, a: Action<T>, rest: seq<Action<T>>)
    ensures Run(s, [a] + rest) == Run(Apply(s, a), rest)
  {
    assert ([a] + rest)[1..] == rest;
  }

  /** Items added one after another end up in front, the latest first, with
      every earlier entry kept behind them in its old order. */
  lemma {:induction false} AddsPrependReversed<T>(s: Store<T>, items: seq<T>)
    ensures Run(s, Adds(items)).candidates == Reverse(items) + s.candidates
    decreases |items|
  {
    if |items| > 0 {
      var x, rest := items[0], items[1..];
      AddsSplit(items);
      RunFirst(s, AddAction(x), Adds(rest));
      AddsPrependReversed(Add(s, x), rest);
      assert Reverse(rest) + ([x] + s.candidates) == (Reverse(rest) + [x]) + s.candidates;
    }
  }

  /** Adding `a` and then `b` to an empty store lists `b` before `a`. */
  lemma LatestAddFirst<T>(a: T, b: T)
    ensures Run(Init(), [AddAction(a), AddAction(b)]).candidates == [b, a]
  {
    assert Adds([a, b]) == [AddAction(a), AddAction(b)];
    AddsPrependReversed(Init<T>(), [a, b]);
    assert [a, b][1..] == [b];
    assert Reverse([b]) == [b] by {
      assert [b][1..] == [];
    }
  }

  /** One candidate added to a fresh store is its only entry, and a `clear`
      afterwards empties the store again. */
  lemma AddThenClear<T>(c: T)
    ensures Run(Init(), [AddAction(c)]).candidates == [c]
    ensures Run(Init(), [AddAction(c), ClearAction]) == Init()
  {
    RunFirst(Init(), AddAction(c), []);
    assert [AddAction(c)] + [] == [AddAction(c)];
    ClearResets(Init(), [AddAction(c)]);
    assert [AddAction(c)] + [ClearAction] == [AddAction(c), ClearAction];
  }

  /** Whatever happened before, a final `clear` returns the initial store. */
  lemma ClearResets<T>(s: Store<T>, actions: seq<Action<T>>)
    ensures Run(s, actions + [ClearAction]) == Init()
  {
    RunAppend(s, actions, [ClearAction]);
  }

  /** Clearing twice is clearing once. */
  lemma ClearIdempotent<T>(s: Store<T>, actions: seq<Action<T>>)
    ensures Run(s, actions + [ClearAction, ClearAction]) == Run(s, actions + [ClearAction])
  {
    RunAppend(s, actions, [ClearAction, ClearAction]);
    RunAppend(s, actions, [ClearAction]);
  }

  /** After `setAll` the earlier state no longer matters. */
  lemma SetAllForgets<T>(s1: Store<T>, s2: Store<T>, list: Option<seq<T>>, actions: seq<Action<T>>)
    ensures Run(s1, [SetAllAction(list)] + actions) == Run(s2, [SetAllAction(list)] + actions)
  {
    assert ([SetAllAction(list)] + actions)[1..] == actions;
  }

  /** Number of `add` actions. */
  function AddCount<T>(actions: seq<Action<T>>): nat {
    if |actions| == 0 then 0
    else (if actions[0].AddAction? then 1 else 0) + AddCount(actions[1..])
  }

  /** With no `setAll` or `clear` among them, actions only ever grow the list,
      one entry per `add`, and the old entries stay at the end. */
  lemma {:induction false} OnlyAddsGrow<T>(s: Store<T>, actions: seq<Action<T>>)
    requires forall i :: 0 <= i < |actions| ==> actions[i].AddAction?
    ensures |Run(s, actions).candidates| == |s.candidates| + AddCount(actions)
    ensures Run(s, actions).candidates[AddCount(actions)..] == s.candidates
    decreases |actions|
  {
    if |actions| > 0 {
      var t := Apply(s, actions[0]);
      OnlyAddsGrow(t, actions[1..]);
      var r := Run(t, actions[1..]).candidates;
      var k := AddCount(actions[1..]);
      assert r[k..] == t.candidates;
      assert r[k + 1..] == t.candidates[1..];
    }
  }
}

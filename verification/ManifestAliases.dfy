/**
 What aliases do to the duplicate-key finder of xtask/src/manifests.rs. An alias event falls to the arm
 that ignores it, so an alias as a value leaves its mapping waiting for that value: the next key is taken
 for it. The finder is right about every document of a shape exactly when the shape has no alias in such
 a place.
 */
module ManifestAliases {
  import opened Manifests

  const INITIAL := FinderState([], [])

  // ---------------------------------------------------------------------------------------------
  // What a node does to the stack, aliases and all
  // ---------------------------------------------------------------------------------------------

  /** Nothing but the flag and the keys of the top frame differs. */
  predicate TopOnly(a: seq<Frame>, b: seq<Frame>) {
    && |a| == |b|
    && (a != [] ==> a[..|a| - 1] == b[..|b| - 1] && a[|a| - 1].MappingFrame? == b[|b| - 1].MappingFrame?)
  }

  /** A collection whose content keeps to its own frame is consumed as one value. */
  lemma Enclosed(s: FinderState, open: Event, body: seq<Event>, close: Event)
    requires (open.SequenceStart? || open.MappingStart?) && (close.SequenceEnd? || close.MappingEnd?)
    requires TopOnly(Handled(s, open).stack, Run(Handled(s, open), body).stack)
    ensures Run(s, [open] + body + [close]).stack == ValueDone(s.stack) && TopOnly(s.stack, ValueDone(s.stack))
  {
    hide Run;
    Bracketed(s, open, body, close);
    var inner := Handled(s, open);
    assert Popped(inner.stack) == s.stack;
  }

  /** Whatever is wrong inside it, a node leaves the frames below alone, and as a value it is consumed as a whole. */
  lemma {:induction false} NodeStack(s: FinderState, t: Node)
    ensures TopOnly(s.stack, Run(s, Events(t)).stack)
    ensures t.Alias? ==> Run(s, Events(t)).stack == s.stack
    ensures !t.Alias? && (t.Leaf? ==> !AwaitsKey(s.stack)) ==> Run(s, Events(t)).stack == ValueDone(s.stack)
    decreases t, 1
  {
    match t {
      case Leaf(text, line) =>
        RunOne(s, ScalarEvent(text, line));
      case Alias =>
        RunOne(s, Other);
      case List(items) =>
        var inner := Handled(s, SequenceStart);
        ItemStack(inner, items, |items|);
        Enclosed(s, SequenceStart, ItemEvents(items, |items|), SequenceEnd);
      case Mapping(pairs) =>
        var inner := Handled(s, MappingStart);
        PairStack(inner, pairs, |pairs|);
        Enclosed(s, MappingStart, PairEvents(pairs, |pairs|), MappingEnd);
    }
  }

  lemma {:induction false} ItemStack(s: FinderState, items: seq<Node>, n: nat)
    requires n <= |items|
    ensures TopOnly(s.stack, Run(s, ItemEvents(items, n)).stack)
    decreases items, n
  {
    hide Handled, Events;
    if n > 0 {
      ItemStack(s, items, n - 1);
      RunConcat(s, ItemEvents(items, n - 1), Events(items[n - 1]));
      NodeStack(Run(s, ItemEvents(items, n - 1)), items[n - 1]);
    }
  }

  lemma {:induction false} PairStack(s: FinderState, pairs: seq<Pair>, n: nat)
    requires n <= |pairs|
    ensures TopOnly(s.stack, Run(s, PairEvents(pairs, n)).stack)
    decreases pairs, n
  {
    hide Events;
    if n > 0 {
      var p := pairs[n - 1];
      var key := ScalarEvent(p.key, p.line);
      PairStack(s, pairs, n - 1);
      var before := Run(s, PairEvents(pairs, n - 1));
      RunConcat(s, PairEvents(pairs, n - 1), [key] + Events(p.value));
      RunConcat(before, [key], Events(p.value));
      RunOne(before, key);
      NodeStack(Handled(before, key), p.value);
    }
  }

  /** After a value, a mapping awaits a key again exactly when the value was not an alias. */
  lemma AliasLeavesMappingWaiting(base: seq<Frame>, seen: set<string>, found: seq<DuplicateKey>, value: Node)
    ensures AwaitsKey(Run(FinderState(base + [MappingFrame(seen, false)], found), Events(value)).stack)
       <==> !value.Alias?
  {
    hide Events, Handled;
    NodeStack(FinderState(base + [MappingFrame(seen, false)], found), value);
  }

  /** Through pairs without an alias value, a mapping that awaits a key comes to await one again. */
  lemma {:induction false} PairsKeepStep(s: FinderState, pairs: seq<Pair>, n: nat)
    requires n <= |pairs| && AwaitsKey(s.stack) && forall i :: 0 <= i < n ==> !pairs[i].value.Alias?
    ensures AwaitsKey(Run(s, PairEvents(pairs, n)).stack)
    decreases n
  {
    hide Events;
    if n > 0 {
      var p := pairs[n - 1];
      var key := ScalarEvent(p.key, p.line);
      PairsKeepStep(s, pairs, n - 1);
      var before := Run(s, PairEvents(pairs, n - 1));
      RunConcat(s, PairEvents(pairs, n - 1), [key] + Events(p.value));
      RunConcat(before, [key], Events(p.value));
      RunOne(before, key);
      NodeStack(Handled(before, key), p.value);
    }
  }

  // ---------------------------------------------------------------------------------------------
  // Shapes
  // ---------------------------------------------------------------------------------------------

  /** The same document but for the texts of its scalars. */
  predicate SameShape(t: Node, u: Node)
    decreases t
  {
    match t
    case Leaf(_, line) => u.Leaf? && u.line == line
    case Alias => u.Alias?
    case List(items) =>
      u.List? && |u.items| == |items| && forall i | 0 <= i < |items| :: SameShape(items[i], u.items[i])
    case Mapping(pairs) =>
      && u.Mapping? && |u.pairs| == |pairs|
      && forall i | 0 <= i < |pairs| :: u.pairs[i].line == pairs[i].line && SameShape(pairs[i].value, u.pairs[i].value)
  }

  /** How many scalars a node holds. */
  function Scalars(t: Node): nat
    decreases t, 0
  {
    match t
    case Leaf(_, _) => 1
    case Alias => 0
    case List(items) => ItemScalars(items, |items|)
    case Mapping(pairs) => PairScalars(pairs, |pairs|)
  }

  function ItemScalars(items: seq<Node>, n: nat): nat
    requires n <= |items|
    decreases items, n
  {
    if n == 0 then 0 else ItemScalars(items, n - 1) + Scalars(items[n - 1])
  }

  function PairScalars(pairs: seq<Pair>, n: nat): nat
    requires n <= |pairs|
    decreases pairs, n
  {
    if n == 0 then 0 else PairScalars(pairs, n - 1) + 1 + Scalars(pairs[n - 1].value)
  }

  /** The document with its k-th scalar called name(n + k). */
  function Named(t: Node, name: nat -> string, n: nat): (u: Node)
    decreases t, 0
  {
    match t
    case Leaf(_, line) => Leaf(name(n), line)
    case Alias => Alias
    case List(items) => List(NamedItems(items, name, n, |items|))
    case Mapping(pairs) => Mapping(NamedPairs(pairs, name, n, |pairs|))
  }

  function NamedItems(items: seq<Node>, name: nat -> string, n: nat, k: nat): (us: seq<Node>)
    requires k <= |items|
    ensures |us| == k
    decreases items, k
  {
    if k == 0 then []
    else NamedItems(items, name, n, k - 1) + [Named(items[k - 1], name, n + ItemScalars(items, k - 1))]
  }

  function NamedPairs(pairs: seq<Pair>, name: nat -> string, n: nat, k: nat): (us: seq<Pair>)
    requires k <= |pairs|
    ensures |us| == k
    decreases pairs, k
  {
    if k == 0 then []
    else
      var before := n + PairScalars(pairs, k - 1);
      NamedPairs(pairs, name, n, k - 1)
      + [Pair(name(before), pairs[k - 1].line, Named(pairs[k - 1].value, name, before + 1))]
  }

  lemma {:induction false} NamedItem(items: seq<Node>, name: nat -> string, n: nat, k: nat, i: nat)
    requires i < k <= |items|
    ensures NamedItems(items, name, n, k)[i] == Named(items[i], name, n + ItemScalars(items, i))
    decreases k
  {
    hide Named, ItemScalars;
    if i < k - 1 {
      NamedItem(items, name, n, k - 1, i);
    }
  }

  lemma {:induction false} NamedPair(pairs: seq<Pair>, name: nat -> string, n: nat, k: nat, i: nat)
    requires i < k <= |pairs|
    ensures NamedPairs(pairs, name, n, k)[i]
         == Pair(name(n + PairScalars(pairs, i)), pairs[i].line,
                 Named(pairs[i].value, name, n + PairScalars(pairs, i) + 1))
    decreases k
  {
    hide Named, PairScalars;
    if i < k - 1 {
      NamedPair(pairs, name, n, k - 1, i);
    }
  }

  lemma {:induction false} NamedHasShape(t: Node, name: nat -> string, n: nat)
    ensures SameShape(t, Named(t, name, n))
    decreases t
  {
    match t {
      case Leaf(_, _) =>
      case Alias =>
      case List(items) =>
        hide NamedItems, ItemScalars;
        var us := NamedItems(items, name, n, |items|);
        forall i | 0 <= i < |items|
          ensures SameShape(items[i], us[i])
        {
          NamedItem(items, name, n, |items|, i);
          NamedHasShape(items[i], name, n + ItemScalars(items, i));
        }
      case Mapping(pairs) =>
        hide NamedPairs, PairScalars;
        var us := NamedPairs(pairs, name, n, |pairs|);
        forall i | 0 <= i < |pairs|
          ensures us[i].line == pairs[i].line && SameShape(pairs[i].value, us[i].value)
        {
          NamedPair(pairs, name, n, |pairs|, i);
          NamedHasShape(pairs[i].value, name, n + PairScalars(pairs, i) + 1);
        }
    }
  }

  lemma {:induction false} ShapeDecidesSafety(t: Node, u: Node)
    requires SameShape(t, u)
    ensures AliasSafe(t) <==> AliasSafe(u)
    ensures t.Alias? <==> u.Alias?
    decreases t
  {
    match t {
      case Leaf(_, _) =>
      case Alias =>
      case List(items) =>
        forall i | 0 <= i < |items|
          ensures AliasSafe(items[i]) <==> AliasSafe(u.items[i])
        {
          ShapeDecidesSafety(items[i], u.items[i]);
        }
      case Mapping(pairs) =>
        forall i | 0 <= i < |pairs|
          ensures AliasSafe(pairs[i].value) <==> AliasSafe(u.pairs[i].value)
          ensures pairs[i].value.Alias? <==> u.pairs[i].value.Alias?
        {
          ShapeDecidesSafety(pairs[i].value, u.pairs[i].value);
        }
    }
  }

  // ---------------------------------------------------------------------------------------------
  // The texts of a stream
  // ---------------------------------------------------------------------------------------------

  function Texts(evs: seq<Event>): seq<string> {
    if evs == [] then [] else (if evs[0].ScalarEvent? then [evs[0].text] else []) + Texts(evs[1..])
  }

  lemma {:induction false} TextsConcat(a: seq<Event>, b: seq<Event>)
    ensures Texts(a + b) == Texts(a) + Texts(b)
  {
    if a == [] {
      assert [] + b == b;
    } else {
      assert (a + b)[1..] == a[1..] + b;
      TextsConcat(a[1..], b);
    }
  }

  function NamesFrom(name: nat -> string, n: nat, count: nat): seq<string> {
    seq(count, i requires 0 <= i < count => name(n + i))
  }

  lemma NamesJoin(name: nat -> string, n: nat, a: nat, b: nat)
    ensures NamesFrom(name, n, a) + NamesFrom(name, n + a, b) == NamesFrom(name, n, a + b)
  {
  }

  lemma {:induction false} TextsAreNames(t: Node, name: nat -> string, n: nat)
    ensures Texts(Events(Named(t, name, n))) == NamesFrom(name, n, Scalars(t))
    decreases t, 1
  {
    match t {
      case Leaf(_, line) =>
        assert [ScalarEvent(name(n), line)][1..] == [];
      case Alias =>
        assert [Other][1..] == [];
      case List(items) =>
        var us := NamedItems(items, name, n, |items|);
        ItemNames(items, us, name, n, |items|);
        Unbracketed(SequenceStart, ItemEvents(us, |items|), SequenceEnd);
      case Mapping(pairs) =>
        var us := NamedPairs(pairs, name, n, |pairs|);
        PairNames(pairs, us, name, n, |pairs|);
        Unbracketed(MappingStart, PairEvents(us, |pairs|), MappingEnd);
    }
  }

  lemma Unbracketed(open: Event, body: seq<Event>, close: Event)
    requires !open.ScalarEvent? && !close.ScalarEvent?
    ensures Texts([open] + body + [close]) == Texts(body)
  {
    TextsConcat([open] + body, [close]);
    TextsConcat([open], body);
    assert [open][1..] == [] && [close][1..] == [];
  }

  lemma {:induction false} ItemNames(items: seq<Node>, us: seq<Node>, name: nat -> string, n: nat, k: nat)
    requires k <= |items| && us == NamedItems(items, name, n, |items|)
    ensures Texts(ItemEvents(us, k)) == NamesFrom(name, n, ItemScalars(items, k))
    decreases items, k
  {
    hide Named, NamedItems, NamesFrom, Events, Scalars;
    if k > 0 {
      var before := ItemScalars(items, k - 1);
      ItemNames(items, us, name, n, k - 1);
      NamedItem(items, name, n, |items|, k - 1);
      TextsAreNames(items[k - 1], name, n + before);
      TextsConcat(ItemEvents(us, k - 1), Events(us[k - 1]));
      NamesJoin(name, n, before, Scalars(items[k - 1]));
    } else {
      NoNames(name, n);
    }
  }

  lemma NoNames(name: nat -> string, n: nat)
    ensures NamesFrom(name, n, 0) == []
  {
  }

  lemma OneName(name: nat -> string, n: nat, line: nat)
    ensures Texts([ScalarEvent(name(n), line)]) == NamesFrom(name, n, 1)
  {
    assert [ScalarEvent(name(n), line)][1..] == [];
  }

  lemma {:induction false} PairNames(pairs: seq<Pair>, us: seq<Pair>, name: nat -> string, n: nat, k: nat)
    requires k <= |pairs| && us == NamedPairs(pairs, name, n, |pairs|)
    ensures Texts(PairEvents(us, k)) == NamesFrom(name, n, PairScalars(pairs, k))
    decreases pairs, k
  {
    hide Named, NamedPairs, NamesFrom, Events, Scalars;
    if k > 0 {
      var before := PairScalars(pairs, k - 1);
      PairNames(pairs, us, name, n, k - 1);
      NamedPair(pairs, name, n, |pairs|, k - 1);
      var p := us[k - 1];
      TextsAreNames(pairs[k - 1].value, name, n + before + 1);
      TextsConcat(PairEvents(us, k - 1), [ScalarEvent(p.key, p.line)] + Events(p.value));
      TextsConcat([ScalarEvent(p.key, p.line)], Events(p.value));
      OneName(name, n + before, p.line);
      NamesJoin(name, n + before, 1, Scalars(pairs[k - 1].value));
      NamesJoin(name, n, before, 1 + Scalars(pairs[k - 1].value));
    } else {
      NoNames(name, n);
    }
  }

  // ---------------------------------------------------------------------------------------------
  // The first key that is misread
  // ---------------------------------------------------------------------------------------------

  /** Something is wrong in or right after the value of pair i. */
  predicate Trouble(pairs: seq<Pair>, i: nat)
    requires i < |pairs|
  {
    !AliasSafe(pairs[i].value) || (pairs[i].value.Alias? && i + 1 < |pairs|)
  }

  function FirstUnsafe(items: seq<Node>, from: nat): (i: nat)
    requires exists j :: from <= j < |items| && !AliasSafe(items[j])
    ensures from <= i < |items| && !AliasSafe(items[i])
    decreases |items| - from
  {
    if !AliasSafe(items[from]) then from else FirstUnsafe(items, from + 1)
  }

  function FirstTrouble(pairs: seq<Pair>, from: nat): (i: nat)
    requires exists j :: from <= j < |pairs| && Trouble(pairs, j)
    ensures from <= i < |pairs| && Trouble(pairs, i) && forall j :: from <= j < i ==> !Trouble(pairs, j)
    decreases |pairs| - from
  {
    if Trouble(pairs, from) then from else FirstTrouble(pairs, from + 1)
  }

  lemma UnsafeHasTrouble(pairs: seq<Pair>)
    requires !AliasSafe(Mapping(pairs))
    ensures exists j :: 0 <= j < |pairs| && Trouble(pairs, j)
  {
    if j :| 0 <= j < |pairs| && !AliasSafe(pairs[j].value) {
      assert Trouble(pairs, j);
    } else {
      var j :| 0 <= j < |pairs| - 1 && pairs[j].value.Alias?;
      assert Trouble(pairs, j);
    }
  }

  /** The number of scalars before the key that stands ahead of the first one misread. */
  function Spot(t: Node): nat
    requires !AliasSafe(t)
    decreases t
  {
    match t
    case List(items) =>
      var i := FirstUnsafe(items, 0);
      ItemScalars(items, i) + Spot(items[i])
    case Mapping(pairs) =>
      UnsafeHasTrouble(pairs);
      var i := FirstTrouble(pairs, 0);
      if !AliasSafe(pairs[i].value) then PairScalars(pairs, i) + 1 + Spot(pairs[i].value) else PairScalars(pairs, i)
  }

  /** A stretch of a stream, taken up where what stands before it leaves off. */
  lemma Within(s: FinderState, evs: seq<Event>, pre: seq<Event>, inner: seq<Event>, m: nat)
    requires pre + inner <= evs && m < |inner|
    ensures |pre| + m < |evs| && evs[|pre| + m] == inner[m]
    ensures |Texts(evs[..|pre| + m])| == |Texts(pre)| + |Texts(inner[..m])|
    ensures Run(s, evs[..|pre| + m]) == Run(Run(s, pre), inner[..m])
  {
    hide Handled;
    assert evs[..|pre| + m] == pre + inner[..m];
    TextsConcat(pre, inner[..m]);
    RunConcat(s, pre, inner[..m]);
    assert evs[|pre| + m] == (pre + inner)[|pre| + m];
  }

  lemma {:induction false} ItemPrefix(items: seq<Node>, i: nat, n: nat)
    requires i < n <= |items|
    ensures ItemEvents(items, i) + Events(items[i]) <= ItemEvents(items, n)
    decreases n
  {
    hide Events;
    if i < n - 1 {
      ItemPrefix(items, i, n - 1);
    }
  }

  lemma {:induction false} PairPrefix(pairs: seq<Pair>, i: nat, n: nat)
    requires i < n <= |pairs|
    ensures PairEvents(pairs, i) + ([ScalarEvent(pairs[i].key, pairs[i].line)] + Events(pairs[i].value))
         <= PairEvents(pairs, n)
    decreases n
  {
    hide Events;
    if i < n - 1 {
      PairPrefix(pairs, i, n - 1);
    }
  }

  /** Event m of the stream is the scalar numbered `number`, and the finder does not take it for a key. */
  ghost predicate NotTakenForKey(s: FinderState, evs: seq<Event>, m: nat, number: nat) {
    m < |evs| && evs[m].ScalarEvent? && |Texts(evs[..m])| == number && !AwaitsKey(Run(s, evs[..m]).stack)
  }

  lemma NestedSpot(s: FinderState, evs: seq<Event>, pre: seq<Event>, inner: seq<Event>, m: nat, number: nat)
    requires pre + inner <= evs && NotTakenForKey(Run(s, pre), inner, m, number)
    ensures NotTakenForKey(s, evs, |pre| + m, |Texts(pre)| + number)
  {
    Within(s, evs, pre, inner, m);
  }

  /** In any context and under any names, the scalar after the spot is a key the finder does not take for one. */
  lemma {:induction false} SpotIsMisread(t: Node, name: nat -> string, n: nat, s: FinderState) returns (m: nat)
    requires !AliasSafe(t)
    ensures NotTakenForKey(s, Events(Named(t, name, n)), m, Spot(t) + 1)
    decreases t
  {
    hide NotTakenForKey, Events, Named, NamedItems, NamedPairs, ItemEvents, PairEvents;
    hide ItemScalars, PairScalars, Run, Texts, Spot, Trouble;
    match t {
      case List(items) =>
        var i, us := FirstUnsafe(items, 0), NamedItems(items, name, n, |items|);
        var pre := [SequenceStart] + ItemEvents(us, i);
        m := SpotIsMisread(items[i], name, n + ItemScalars(items, i), Run(s, pre));
        ListSpot(items, name, n, i, s, m);
        m := |pre| + m;
      case Mapping(pairs) =>
        UnsafeHasTrouble(pairs);
        var i, us := FirstTrouble(pairs, 0), NamedPairs(pairs, name, n, |pairs|);
        if AliasSafe(pairs[i].value) {
          m := |[MappingStart] + PairEvents(us, i + 1)|;
          AliasSpot(pairs, name, n, i, s);
        } else {
          var pre := [MappingStart] + PairEvents(us, i) + [ScalarEvent(us[i].key, us[i].line)];
          m := SpotIsMisread(pairs[i].value, name, n + PairScalars(pairs, i) + 1, Run(s, pre));
          ValueSpot(pairs, name, n, i, s, m);
          m := |pre| + m;
        }
    }
  }

  lemma ListSpot(items: seq<Node>, name: nat -> string, n: nat, i: nat, s: FinderState, m: nat)
    requires i < |items| && !AliasSafe(items[i]) && i == FirstUnsafe(items, 0)
    requires var pre := [SequenceStart] + ItemEvents(NamedItems(items, name, n, |items|), i);
      NotTakenForKey(Run(s, pre), Events(Named(items[i], name, n + ItemScalars(items, i))), m, Spot(items[i]) + 1)
    ensures var pre := [SequenceStart] + ItemEvents(NamedItems(items, name, n, |items|), i);
      NotTakenForKey(s, Events(Named(List(items), name, n)), |pre| + m, Spot(List(items)) + 1)
  {
    var us := NamedItems(items, name, n, |items|);
    var pre, evs := [SequenceStart] + ItemEvents(us, i), Events(Named(List(items), name, n));
    NamedItem(items, name, n, |items|, i);
    ItemsBefore(items, us, name, n, i);
    assert Spot(List(items)) == ItemScalars(items, i) + Spot(items[i]);
    hide Texts, Events, NotTakenForKey, ItemEvents, Named, NamedItems, AliasSafe, Spot, Run;
    NestedSpot(s, evs, pre, Events(us[i]), m, Spot(items[i]) + 1);
  }

  lemma NamedList(items: seq<Node>, us: seq<Node>, name: nat -> string, n: nat)
    requires us == NamedItems(items, name, n, |items|)
    ensures Events(Named(List(items), name, n)) == [SequenceStart] + ItemEvents(us, |us|) + [SequenceEnd]
  {
    hide NamedItems, ItemEvents;
  }

  /** What stands before item i, and how many scalars are in it. */
  lemma ItemsBefore(items: seq<Node>, us: seq<Node>, name: nat -> string, n: nat, i: nat)
    requires i < |items| && us == NamedItems(items, name, n, |items|)
    ensures var pre := [SequenceStart] + ItemEvents(us, i);
      pre + Events(us[i]) <= Events(Named(List(items), name, n)) && |Texts(pre)| == ItemScalars(items, i)
  {
    assert Texts([SequenceStart]) == [] by {
      assert [SequenceStart][1..] == [];
    }
    hide Texts, Events, ItemEvents, Named, NamedItems, ItemScalars;
    NamedList(items, us, name, n);
    ItemPrefix(us, i, |us|);
    ItemNames(items, us, name, n, i);
    TextsConcat([SequenceStart], ItemEvents(us, i));
    Shifted(SequenceStart, ItemEvents(us, i), Events(us[i]), ItemEvents(us, |us|), SequenceEnd);
  }

  lemma Shifted(open: Event, pre: seq<Event>, inner: seq<Event>, body: seq<Event>, close: Event)
    requires pre + inner <= body
    ensures [open] + pre + inner <= [open] + body + [close]
  {
  }

  lemma ValueSpot(pairs: seq<Pair>, name: nat -> string, n: nat, i: nat, s: FinderState, m: nat)
    requires i < |pairs| && !AliasSafe(pairs[i].value) && !AliasSafe(Mapping(pairs))
    requires (exists j :: 0 <= j < |pairs| && Trouble(pairs, j)) && i == FirstTrouble(pairs, 0)
    requires var us := NamedPairs(pairs, name, n, |pairs|);
      var pre := [MappingStart] + PairEvents(us, i) + [ScalarEvent(us[i].key, us[i].line)];
      NotTakenForKey(Run(s, pre), Events(Named(pairs[i].value, name, n + PairScalars(pairs, i) + 1)), m,
                     Spot(pairs[i].value) + 1)
    ensures var us := NamedPairs(pairs, name, n, |pairs|);
      var pre := [MappingStart] + PairEvents(us, i) + [ScalarEvent(us[i].key, us[i].line)];
      NotTakenForKey(s, Events(Named(Mapping(pairs), name, n)), |pre| + m, Spot(Mapping(pairs)) + 1)
  {
    var us := NamedPairs(pairs, name, n, |pairs|);
    var key, inner := ScalarEvent(us[i].key, us[i].line), Events(us[i].value);
    var pre, evs := [MappingStart] + PairEvents(us, i) + [key], Events(Named(Mapping(pairs), name, n));
    NamedPair(pairs, name, n, |pairs|, i);
    ValuePrefix(pairs, us, name, n, i);
    assert Spot(Mapping(pairs)) == PairScalars(pairs, i) + 1 + Spot(pairs[i].value);
    hide Texts, Events, NotTakenForKey, PairEvents, Named, NamedPairs, AliasSafe, Spot, Run;
    NestedSpot(s, evs, pre, inner, m, Spot(pairs[i].value) + 1);
  }

  lemma NamedMapping(pairs: seq<Pair>, us: seq<Pair>, name: nat -> string, n: nat)
    requires us == NamedPairs(pairs, name, n, |pairs|)
    ensures Events(Named(Mapping(pairs), name, n)) == [MappingStart] + PairEvents(us, |us|) + [MappingEnd]
  {
    hide NamedPairs, PairEvents;
  }

  lemma PrefixTextsCount(us: seq<Pair>, i: nat, key: Event)
    requires i <= |us| && key.ScalarEvent?
    ensures |Texts([MappingStart] + PairEvents(us, i) + [key])| == |Texts(PairEvents(us, i))| + 1
  {
    assert |Texts([MappingStart])| == 0 && |Texts([key])| == 1 by {
      assert [MappingStart][1..] == [] && [key][1..] == [];
    }
    hide Texts, PairEvents;
    TextsConcat([MappingStart], PairEvents(us, i));
    TextsConcat([MappingStart] + PairEvents(us, i), [key]);
  }

  /** What stands before the value of pair i, and how many scalars are in it. */
  lemma ValuePrefix(pairs: seq<Pair>, us: seq<Pair>, name: nat -> string, n: nat, i: nat)
    requires i < |pairs| && us == NamedPairs(pairs, name, n, |pairs|)
    ensures var pre := [MappingStart] + PairEvents(us, i) + [ScalarEvent(us[i].key, us[i].line)];
      pre + Events(us[i].value) <= Events(Named(Mapping(pairs), name, n)) && |Texts(pre)| == PairScalars(pairs, i) + 1
  {
    hide Texts, Events, PairEvents, Named, NamedPairs, PairScalars;
    var key, inner := ScalarEvent(us[i].key, us[i].line), Events(us[i].value);
    NamedMapping(pairs, us, name, n);
    PrefixTextsCount(us, i, key);
    PairNames(pairs, us, name, n, i);
    PairPrefix(us, i, |us|);
    Shifted(MappingStart, PairEvents(us, i), [key] + inner, PairEvents(us, |us|), MappingEnd);
    assert [MappingStart] + PairEvents(us, i) + ([key] + inner) == [MappingStart] + PairEvents(us, i) + [key] + inner;
  }

  lemma AliasSpot(pairs: seq<Pair>, name: nat -> string, n: nat, i: nat, s: FinderState)
    requires i < |pairs| && AliasSafe(pairs[i].value) && !AliasSafe(Mapping(pairs))
    requires (exists j :: 0 <= j < |pairs| && Trouble(pairs, j)) && i == FirstTrouble(pairs, 0)
    ensures var us := NamedPairs(pairs, name, n, |pairs|);
      NotTakenForKey(s, Events(Named(Mapping(pairs), name, n)), |[MappingStart] + PairEvents(us, i + 1)|,
                     Spot(Mapping(pairs)) + 1)
  {
    var us := NamedPairs(pairs, name, n, |pairs|);
    var pre, evs := [MappingStart] + PairEvents(us, i + 1), Events(Named(Mapping(pairs), name, n));
    var next := [ScalarEvent(us[i + 1].key, us[i + 1].line)];
    PairPrefix(us, i + 1, |us|);
    PairNames(pairs, us, name, n, i + 1);
    TextsConcat([MappingStart], PairEvents(us, i + 1));
    assert |Texts([MappingStart])| == 0 by {
      assert [MappingStart][1..] == [];
    }
    assert Trouble(pairs, i) && pairs[i].value.Alias?;
    forall j | 0 <= j < i
      ensures !pairs[j].value.Alias?
    {
      assert !Trouble(pairs, j);
    }
    AliasSkews(pairs, us, name, n, i, Handled(s, MappingStart));
    RunConcat(s, [MappingStart], PairEvents(us, i + 1));
    RunOne(s, MappingStart);
    assert evs == [MappingStart] + PairEvents(us, |us|) + [MappingEnd];
    Shifted(MappingStart, PairEvents(us, i + 1), next + Events(us[i + 1].value), PairEvents(us, |us|), MappingEnd);
    assert pre + (next + Events(us[i + 1].value)) <= evs;
    assert evs[..|pre|] == pre && evs[|pre|] == next[0];
  }

  /** Through the first pair whose value is an alias, a fresh mapping comes to wait for a value. */
  lemma AliasSkews(pairs: seq<Pair>, us: seq<Pair>, name: nat -> string, n: nat, i: nat, s: FinderState)
    requires i < |pairs| && us == NamedPairs(pairs, name, n, |pairs|) && AwaitsKey(s.stack)
    requires pairs[i].value.Alias? && forall j :: 0 <= j < i ==> !pairs[j].value.Alias?
    ensures !AwaitsKey(Run(s, PairEvents(us, i + 1)).stack)
  {
    var key := ScalarEvent(us[i].key, us[i].line);
    forall j | 0 <= j <= i
      ensures us[j].value.Alias? <==> pairs[j].value.Alias?
    {
      NamedPair(pairs, name, n, |pairs|, j);
    }
    PairsKeepStep(s, us, i);
    var before := Run(s, PairEvents(us, i));
    RunConcat(s, PairEvents(us, i), [key] + Events(us[i].value));
    RunConcat(before, [key], Events(us[i].value));
    RunOne(before, key);
    RunOne(Handled(before, key), Other);
  }

  lemma RepeatInside(items: seq<Node>, pairs: seq<Pair>, i: nat)
    ensures i < |items| && !UniqueKeys(items[i]) ==> !UniqueKeys(List(items))
    ensures i < |pairs| && !UniqueKeys(pairs[i].value) ==> !UniqueKeys(Mapping(pairs))
    ensures i + 1 < |pairs| && pairs[i].key == pairs[i + 1].key ==> !UniqueKeys(Mapping(pairs))
  {
  }

  /** Naming the misread key after the one before it makes it a repeat. */
  lemma {:induction false} SpotRepeats(t: Node, name: nat -> string, n: nat)
    requires !AliasSafe(t) && name(n + Spot(t)) == name(n + Spot(t) + 1)
    ensures !UniqueKeys(Named(t, name, n))
    decreases t
  {
    hide UniqueKeys, NamedItems, NamedPairs, ItemScalars, PairScalars;
    match t {
      case List(items) =>
        var i, us := FirstUnsafe(items, 0), NamedItems(items, name, n, |items|);
        SpotRepeats(items[i], name, n + ItemScalars(items, i));
        NamedItem(items, name, n, |items|, i);
        RepeatInside(us, [], i);
      case Mapping(pairs) =>
        UnsafeHasTrouble(pairs);
        var i, us := FirstTrouble(pairs, 0), NamedPairs(pairs, name, n, |pairs|);
        NamedPair(pairs, name, n, |pairs|, i);
        if AliasSafe(pairs[i].value) {
          NamedPair(pairs, name, n, |pairs|, i + 1);
          NoScalarsInAlias(pairs, i);
        } else {
          SpotRepeats(pairs[i].value, name, n + PairScalars(pairs, i) + 1);
        }
        RepeatInside([], us, i);
    }
  }

  lemma NoScalarsInAlias(pairs: seq<Pair>, i: nat)
    requires i < |pairs| && pairs[i].value.Alias?
    ensures PairScalars(pairs, i + 1) == PairScalars(pairs, i) + 1
  {
  }

  // ---------------------------------------------------------------------------------------------
  // When a stream goes unreported
  // ---------------------------------------------------------------------------------------------

  ghost predicate SeenWithin(stack: seq<Frame>, texts: seq<string>) {
    forall i, x :: 0 <= i < |stack| && stack[i].MappingFrame? && x in stack[i].seen ==> x in texts
  }

  /** The scalar at m is new to the stream, or is not taken for a key. */
  ghost predicate Unreportable(evs: seq<Event>, m: nat)
    requires m < |evs|
  {
    evs[m].ScalarEvent? ==> evs[m].text !in Texts(evs[..m]) || !AwaitsKey(Run(INITIAL, evs[..m]).stack)
  }

  lemma QuietStep(s: FinderState, ev: Event, texts: seq<string>)
    requires s.found == [] && SeenWithin(s.stack, texts)
    requires ev.ScalarEvent? ==> ev.text !in texts || !AwaitsKey(s.stack)
    ensures Handled(s, ev).found == [] && SeenWithin(Handled(s, ev).stack, texts + Texts([ev]))
  {
    assert [ev][1..] == [];
  }

  lemma {:induction false} QuietStream(evs: seq<Event>)
    requires forall m :: 0 <= m < |evs| ==> Unreportable(evs, m)
    ensures Run(INITIAL, evs).found == [] && SeenWithin(Run(INITIAL, evs).stack, Texts(evs))
  {
    hide Handled, SeenWithin;
    if evs == [] {
      NothingSeen();
    } else {
      var n, front := |evs| - 1, evs[..|evs| - 1];
      forall m | 0 <= m < n
        ensures Unreportable(front, m)
      {
        assert Unreportable(evs, m) && front[..m] == evs[..m];
      }
      QuietStream(front);
      assert Unreportable(evs, n) && evs == front + [evs[n]];
      RunConcat(INITIAL, front, [evs[n]]);
      RunOne(Run(INITIAL, front), evs[n]);
      TextsConcat(front, [evs[n]]);
      QuietStep(Run(INITIAL, front), evs[n], Texts(front));
    }
  }

  lemma NothingSeen()
    ensures SeenWithin(INITIAL.stack, [])
  {
  }

  /** k strokes. */
  function Tally(k: nat): (s: string)
    ensures |s| == k
  {
    seq(k, _ => '|')
  }

  /** All scalars named apart, but for the one after `spot`, which is named as its neighbour. */
  function Planted(spot: nat): nat -> string {
    (k: nat) => Tally(if k == spot + 1 then spot else k)
  }

  lemma PrefixTexts(evs: seq<Event>, m: nat)
    requires m < |evs| && evs[m].ScalarEvent?
    ensures |Texts(evs[..m])| < |Texts(evs)| && Texts(evs)[|Texts(evs[..m])|] == evs[m].text
    ensures Texts(evs)[..|Texts(evs[..m])|] == Texts(evs[..m])
  {
    TextsConcat(evs[..m], evs[m..]);
    assert evs == evs[..m] + evs[m..];
  }

  /** Two scalars of a stream with as many scalars before them are the same. */
  lemma SameNumberSamePlace(evs: seq<Event>, m: nat, m': nat)
    requires m < |evs| && evs[m].ScalarEvent? && m' < |evs| && evs[m'].ScalarEvent?
    requires |Texts(evs[..m])| == |Texts(evs[..m'])|
    ensures m == m'
  {
    if m < m' {
      assert evs[..m'][..m] == evs[..m];
      PrefixTexts(evs[..m'], m);
    } else if m' < m {
      assert evs[..m][..m'] == evs[..m'];
      PrefixTexts(evs[..m], m');
    }
  }

  /** Planted at its spot, the repeat of an unsafe shape is not reported, and nothing else is. */
  lemma PlantedGoesUnreported(t: Node)
    requires !AliasSafe(t)
    ensures var u := Named(t, Planted(Spot(t)), 0);
      SameShape(t, u) && Repeats(u) != [] && Run(INITIAL, Events(u)).found == []
  {
    hide Spot, Named, Events, Run, Repeats, AliasSafe, UniqueKeys, SameShape;
    var spot := Spot(t);
    var name := Planted(spot);
    var u := Named(t, name, 0);
    var evs := Events(u);
    NamedHasShape(t, name, 0);
    SpotRepeats(t, name, 0);
    CleanIffUnique(u);
    TextsAreNames(t, name, 0);
    var spotted := SpotIsMisread(t, name, 0, INITIAL);
    forall m | 0 <= m < |evs|
      ensures Unreportable(evs, m)
    {
      if evs[m].ScalarEvent? {
        PrefixTexts(evs, m);
        var number := |Texts(evs[..m])|;
        if number == spot + 1 {
          SameNumberSamePlace(evs, m, spotted);
        } else {
          NameIsNew(spot, number, Scalars(t));
        }
      }
    }
    QuietStream(evs);
  }

  lemma NameIsNew(spot: nat, number: nat, count: nat)
    requires number < count && number != spot + 1
    ensures NamesFrom(Planted(spot), 0, count)[number] !in NamesFrom(Planted(spot), 0, count)[..number]
  {
    var names := NamesFrom(Planted(spot), 0, count);
    forall i | 0 <= i < number
      ensures names[i] != names[number]
    {
      assert names[i] == Planted(spot)(i) && names[number] == Planted(spot)(number);
      assert Planted(spot)(i) == Tally(if i == spot + 1 then spot else i) && Planted(spot)(number) == Tally(number);
    }
  }

  /**
   The finder reports exactly the repeats of every document of a shape, whatever its scalars say, exactly
   when no alias in it is the value of a pair that another pair follows.
   */
  lemma FinderIsExactForShape(t: Node)
    ensures (forall u :: SameShape(t, u) ==> Run(INITIAL, Events(u)).found == Repeats(u)) <==> AliasSafe(t)
  {
    if AliasSafe(t) {
      forall u | SameShape(t, u)
        ensures Run(INITIAL, Events(u)).found == Repeats(u)
      {
        ShapeDecidesSafety(t, u);
        NodeStream(INITIAL, u);
        assert [] + Repeats(u) == Repeats(u);
      }
    } else {
      PlantedGoesUnreported(t);
      var u := Named(t, Planted(Spot(t)), 0);
      assert SameShape(t, u) && Run(INITIAL, Events(u)).found != Repeats(u);
    }
  }

  // ---------------------------------------------------------------------------------------------
  // A document a parser delivers
  // ---------------------------------------------------------------------------------------------

  /** {z: &x 0, a: *x, b: 1, b: 2}. */
  const ALIASED := [Pair("z", 1, Leaf("0", 1)), Pair("a", 2, Alias),
                    Pair("b", 3, Leaf("1", 3)), Pair("b", 4, Leaf("2", 4))]

  const ALIASED_EVENTS := [ScalarEvent("z", 1), ScalarEvent("0", 1), ScalarEvent("a", 2), Other,
                           ScalarEvent("b", 3), ScalarEvent("1", 3), ScalarEvent("b", 4), ScalarEvent("2", 4)]

  lemma AliasedEvents()
    ensures PairEvents(ALIASED, 4) == ALIASED_EVENTS
  {
    assert PairEvents(ALIASED, 2) == ALIASED_EVENTS[..4];
    assert PairEvents(ALIASED, 3) == ALIASED_EVENTS[..6];
  }

  /** A finder in one mapping, nothing found. */
  function Lone(seen: set<string>, expectingKey: bool): FinderState {
    FinderState([MappingFrame(seen, expectingKey)], [])
  }

  lemma LoneKey(seen: set<string>, text: string, line: nat, rest: seq<Event>)
    requires text !in seen
    ensures Run(Lone(seen, true), [ScalarEvent(text, line)] + rest) == Run(Lone(seen + {text}, false), rest)
  {
    assert Handled(Lone(seen, true), ScalarEvent(text, line)) == Lone(seen + {text}, false);
  }

  lemma LoneValue(seen: set<string>, text: string, line: nat, rest: seq<Event>)
    ensures Run(Lone(seen, false), [ScalarEvent(text, line)] + rest) == Run(Lone(seen, true), rest)
  {
    assert Handled(Lone(seen, false), ScalarEvent(text, line)) == Lone(seen, true);
  }

  /** The alias shifts the pairing by one: b is read as the value of a, 1 and 2 as keys. */
  lemma AliasedRun()
    ensures Run(Lone({}, true), ALIASED_EVENTS).found == []
  {
    hide Run, Lone;
    var evs := ALIASED_EVENTS;
    var za := {} + {"z"} + {"a"};
    LoneKey({}, "z", 1, evs[1..]);
    LoneValue({} + {"z"}, "0", 1, evs[2..]);
    LoneKey({} + {"z"}, "a", 2, evs[3..]);
    OtherIgnored(Lone(za, false), evs[4..]);
    LoneValue(za, "b", 3, evs[5..]);
    LoneKey(za, "1", 3, evs[6..]);
    LoneValue(za + {"1"}, "b", 4, evs[7..]);
    LoneKey(za + {"1"}, "2", 4, []);
    RunNothing(za + {"1"} + {"2"});
    assert evs == [evs[0]] + evs[1..] && evs[1..] == [evs[1]] + evs[2..] && evs[2..] == [evs[2]] + evs[3..];
    assert evs[3..] == [evs[3]] + evs[4..] && evs[4..] == [evs[4]] + evs[5..] && evs[5..] == [evs[5]] + evs[6..];
    assert evs[6..] == [evs[6]] + evs[7..] && evs[7..] == [evs[7]] + [];
  }

  lemma OtherIgnored(s: FinderState, rest: seq<Event>)
    ensures Run(s, [Other] + rest) == Run(s, rest)
  {
  }

  lemma RunNothing(seen: set<string>)
    ensures Run(Lone(seen, false), []).found == []
  {
  }

  /** With an alias as a value, keys are taken for values from there on, and a repeat is missed. */
  lemma AliasHidesRepeat()
    ensures Repeats(Mapping(ALIASED)) != []
    ensures Run(INITIAL, Events(Mapping(ALIASED))).found == []
  {
    hide PairEvents, Run, UniqueKeys, Repeats;
    CleanIffUnique(Mapping(ALIASED));
    assert ALIASED[2].key == ALIASED[3].key;
    RepeatInside([], ALIASED, 2);
    AliasedEvents();
    AliasedRun();
    Bracketed(INITIAL, MappingStart, ALIASED_EVENTS, MappingEnd);
    assert Handled(INITIAL, MappingStart) == Lone({}, true);
    assert |ALIASED| == 4;
    assert Events(Mapping(ALIASED)) == [MappingStart] + ALIASED_EVENTS + [MappingEnd];
  }
}

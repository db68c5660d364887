/**
 The duplicate-key finder of xtask/src/manifests.rs: a one-pass stack machine over YAML parser events,
 against a definition of repeated keys on the document tree.
 */
module Manifests {

  /** A repeated mapping key, with the line the repeat stands on. */
  datatype DuplicateKey = DuplicateKey(key: string, line: nat)

  datatype Event =
    | MappingStart
    | MappingEnd
    | SequenceStart
    | SequenceEnd
    | ScalarEvent(text: string, line: nat)
    | Other

  datatype Frame = MappingFrame(seen: set<string>, expectingKey: bool) | SequenceFrame

  datatype FinderState = FinderState(stack: seq<Frame>, found: seq<DuplicateKey>)

  /** The next scalar of an enclosing mapping is a key again. */
  function ValueDone(stack: seq<Frame>): seq<Frame> {
    if stack != [] && stack[|stack| - 1].MappingFrame?
    then stack[|stack| - 1 := stack[|stack| - 1].(expectingKey := true)] else stack
  }

  function Popped(stack: seq<Frame>): seq<Frame> {
    if stack == [] then [] else stack[..|stack| - 1]
  }

  predicate AwaitsKey(stack: seq<Frame>) {
    stack != [] && stack[|stack| - 1].MappingFrame? && stack[|stack| - 1].expectingKey
  }

  function Handled(s: FinderState, ev: Event): FinderState {
    match ev
    case MappingStart => s.(stack := s.stack + [MappingFrame({}, true)])
    case SequenceStart => s.(stack := s.stack + [SequenceFrame])
    case MappingEnd => s.(stack := ValueDone(Popped(s.stack)))
    case SequenceEnd => s.(stack := ValueDone(Popped(s.stack)))
    case ScalarEvent(text, line) =>
      if AwaitsKey(s.stack) then
        var n := |s.stack| - 1;
        var seen := s.stack[n].seen;
        FinderState(s.stack[n := MappingFrame(seen + {text}, false)],
                    if text in seen then s.found + [DuplicateKey(text, line)] else s.found)
      else
        s.(stack := ValueDone(s.stack))
    case Other => s
  }

  class DuplicateFinder {
    var stack: seq<Frame>
    var found: seq<DuplicateKey>

    function State(): FinderState
      reads this
    {
      FinderState(stack, found)
    }

    constructor ()
      ensures State() == FinderState([], [])
    {
      stack, found := [], [];
    }

    method MarkValueDone()
      modifies this
      ensures State() == FinderState(ValueDone(old(stack)), old(found))
    {
      if stack != [] && stack[|stack| - 1].MappingFrame? {
        stack := stack[|stack| - 1 := stack[|stack| - 1].(expectingKey := true)];
      }
    }

    method OnEvent(ev: Event)
      modifies this
      ensures State() == Handled(old(State()), ev)
    {
      match ev {
        case MappingStart =>
          stack := stack + [MappingFrame({}, true)];
        case SequenceStart =>
          stack := stack + [SequenceFrame];
        case MappingEnd =>
          stack := if stack == [] then [] else stack[..|stack| - 1];
          MarkValueDone();
        case SequenceEnd =>
          stack := if stack == [] then [] else stack[..|stack| - 1];
          MarkValueDone();
        case ScalarEvent(text, line) =>
          if stack != [] && stack[|stack| - 1].MappingFrame? && stack[|stack| - 1].expectingKey {
            var top := stack[|stack| - 1];
            if text in top.seen {
              found := found + [DuplicateKey(text, line)];
            }
            stack := stack[|stack| - 1 := MappingFrame(top.seen + {text}, false)];
          } else {
            MarkValueDone();
          }
        case Other =>
      }
    }

    /** Feed a whole event stream. */
    method Load(events: seq<Event>)
      modifies this
      ensures State() == Run(old(State()), events)
    {
      for i := 0 to |events|
        invariant State() == Run(old(State()), events[..i])
      {
        assert events[..i + 1] == events[..i] + [events[i]];
        RunConcat(old(State()), events[..i], [events[i]]);
        RunOne(Run(old(State()), events[..i]), events[i]);
        OnEvent(events[i]);
      }
      assert events[..|events|] == events;
    }
  }

  function Run(s: FinderState, events: seq<Event>): FinderState
    decreases |events|
  {
    if events == [] then s else Run(Handled(s, events[0]), events[1..])
  }

  lemma RunOne(s: FinderState, ev: Event)
    ensures Run(s, [ev]) == Handled(s, ev)
  {
  }

  lemma {:induction false} RunConcat(s: FinderState, a: seq<Event>, b: seq<Event>)
    ensures Run(s, a + b) == Run(Run(s, a), b)
    decreases |a|
  {
    hide Handled;
    if a == [] {
      assert [] + b == b;
    } else {
      RunConcat(Handled(s, a[0]), a[1..], b);
      assert (a + b)[0] == a[0] && (a + b)[1..] == a[1..] + b;
    }
  }

  // ---------------------------------------------------------------------------------------------
  // Document trees
  // ---------------------------------------------------------------------------------------------

  /** A node with scalar keys; an alias stands for a node anchored elsewhere. */
  datatype Node =
    | Leaf(text: string, line: nat)
    | List(items: seq<Node>)
    | Mapping(pairs: seq<Pair>)
    | Alias

  datatype Pair = Pair(key: string, line: nat, value: Node)

  /** The parser's events for a node, in document order. */
  function Events(t: Node): seq<Event>
    decreases t, 0
  {
    match t
    case Leaf(text, line) => [ScalarEvent(text, line)]
    case List(items) => [SequenceStart] + ItemEvents(items, |items|) + [SequenceEnd]
    case Mapping(pairs) => [MappingStart] + PairEvents(pairs, |pairs|) + [MappingEnd]
    case Alias => [Other]
  }

  function ItemEvents(items: seq<Node>, n: nat): seq<Event>
    requires n <= |items|
    decreases items, n
  {
    if n == 0 then [] else ItemEvents(items, n - 1) + Events(items[n - 1])
  }

  function PairEvents(pairs: seq<Pair>, n: nat): seq<Event>
    requires n <= |pairs|
    decreases pairs, n
  {
    if n == 0 then []
    else PairEvents(pairs, n - 1) + ([ScalarEvent(pairs[n - 1].key, pairs[n - 1].line)] + Events(pairs[n - 1].value))
  }

  /** The key of pair i already stands earlier in the same mapping. */
  predicate Repeated(pairs: seq<Pair>, i: nat)
    requires i < |pairs|
  {
    exists j | 0 <= j < i :: pairs[j].key == pairs[i].key
  }

  /** The repeats of a tree in document order: each mapping judged on its own keys. */
  function Repeats(t: Node): seq<DuplicateKey>
    decreases t, 0
  {
    match t
    case Leaf(_, _) => []
    case List(items) => ItemRepeats(items, |items|)
    case Mapping(pairs) => PairRepeats(pairs, |pairs|)
    case Alias => []
  }

  function ItemRepeats(items: seq<Node>, n: nat): seq<DuplicateKey>
    requires n <= |items|
    decreases items, n
  {
    if n == 0 then [] else ItemRepeats(items, n - 1) + Repeats(items[n - 1])
  }

  function PairRepeats(pairs: seq<Pair>, n: nat): seq<DuplicateKey>
    requires n <= |pairs|
    decreases pairs, n
  {
    if n == 0 then []
    else PairRepeats(pairs, n - 1)
         + (if Repeated(pairs, n - 1) then [DuplicateKey(pairs[n - 1].key, pairs[n - 1].line)] else [])
         + Repeats(pairs[n - 1].value)
  }

  /** No alias is the value of a pair that another pair follows; alias-free trees are all of this kind. */
  predicate AliasSafe(t: Node)
    decreases t, 0
  {
    match t
    case Leaf(_, _) => true
    case List(items) => forall i | 0 <= i < |items| :: AliasSafe(items[i])
    case Mapping(pairs) =>
      && (forall i | 0 <= i < |pairs| :: AliasSafe(pairs[i].value))
      && (forall i | 0 <= i < |pairs| - 1 :: !pairs[i].value.Alias?)
    case Alias => true
  }

  // ---------------------------------------------------------------------------------------------
  // The stream machine computes the tree definition
  // ---------------------------------------------------------------------------------------------

  /** What consuming a node does to the stack: a value is done, unless it was an alias, which goes unseen. */
  function Consumed(t: Node, stack: seq<Frame>): seq<Frame> {
    if t.Alias? then stack else ValueDone(stack)
  }

  function KeysOf(pairs: seq<Pair>, n: nat): set<string>
    requires n <= |pairs|
  {
    set i | 0 <= i < n :: pairs[i].key
  }

  /** The mapping frame after n pairs: only a last value that is an alias leaves it waiting. */
  function FrameAfter(pairs: seq<Pair>, n: nat): Frame
    requires n <= |pairs|
  {
    MappingFrame(KeysOf(pairs, n), n == 0 || !pairs[n - 1].value.Alias?)
  }

  lemma {:induction false} NodeStream(s: FinderState, t: Node)
    requires AliasSafe(t) && !AwaitsKey(s.stack)
    ensures Run(s, Events(t)) == FinderState(Consumed(t, s.stack), s.found + Repeats(t))
    decreases t, 1
  {
    match t {
      case Leaf(text, line) =>
        RunOne(s, ScalarEvent(text, line));
        assert s.found + [] == s.found;
      case Alias =>
        RunOne(s, Other);
        assert s.found + [] == s.found;
      case List(items) =>
        var inner := FinderState(s.stack + [SequenceFrame], s.found);
        ItemStream(inner, items, |items|);
        Collected(s, SequenceStart, ItemEvents(items, |items|), SequenceEnd, SequenceFrame,
                  ItemRepeats(items, |items|));
      case Mapping(pairs) =>
        assert FrameAfter(pairs, 0) == MappingFrame({}, true);
        PairStream(s, pairs, |pairs|);
        Collected(s, MappingStart, PairEvents(pairs, |pairs|), MappingEnd, FrameAfter(pairs, |pairs|),
                  PairRepeats(pairs, |pairs|));
    }
  }

  /** A collection whose content leaves one frame of its own on the stack is consumed as one value. */
  lemma Collected(s: FinderState, open: Event, body: seq<Event>, close: Event, frame: Frame, repeats: seq<DuplicateKey>)
    requires (open.SequenceStart? && close.SequenceEnd?) || (open.MappingStart? && close.MappingEnd?)
    requires Run(Handled(s, open), body) == FinderState(s.stack + [frame], s.found + repeats)
    ensures Run(s, [open] + body + [close]) == FinderState(ValueDone(s.stack), s.found + repeats)
  {
    hide Run, Handled, ValueDone;
    Bracketed(s, open, body, close);
    Closing(s.stack, frame, s.found + repeats, close);
  }

  lemma Closing(stack: seq<Frame>, frame: Frame, found: seq<DuplicateKey>, close: Event)
    requires close.SequenceEnd? || close.MappingEnd?
    ensures Handled(FinderState(stack + [frame], found), close) == FinderState(ValueDone(stack), found)
  {
    hide ValueDone;
    assert Popped(stack + [frame]) == stack;
  }

  lemma Bracketed(s: FinderState, open: Event, body: seq<Event>, close: Event)
    ensures Run(s, [open] + body + [close]) == Handled(Run(Handled(s, open), body), close)
  {
    hide Handled;
    RunConcat(s, [open] + body, [close]);
    RunConcat(s, [open], body);
    RunOne(s, open);
    RunOne(Run(s, [open] + body), close);
  }

  lemma {:induction false} ItemStream(s: FinderState, items: seq<Node>, n: nat)
    requires n <= |items| && (forall i :: 0 <= i < |items| ==> AliasSafe(items[i]))
    requires s.stack != [] && s.stack[|s.stack| - 1].SequenceFrame?
    ensures Run(s, ItemEvents(items, n)) == FinderState(s.stack, s.found + ItemRepeats(items, n))
    decreases items, n
  {
    hide Handled, Events, Repeats;
    if n == 0 {
      assert s.found + [] == s.found;
    } else {
      ItemStream(s, items, n - 1);
      RunConcat(s, ItemEvents(items, n - 1), Events(items[n - 1]));
      NodeStream(FinderState(s.stack, s.found + ItemRepeats(items, n - 1)), items[n - 1]);
      Assoc(s.found, ItemRepeats(items, n - 1), Repeats(items[n - 1]));
    }
  }

  lemma Assoc(a: seq<DuplicateKey>, b: seq<DuplicateKey>, c: seq<DuplicateKey>)
    ensures a + b + c == a + (b + c)
  {
  }

  /** One key scalar, with the mapping awaiting a key. */
  lemma KeyStep(base: seq<Frame>, found: seq<DuplicateKey>, pairs: seq<Pair>, n: nat)
    requires n < |pairs| && (n > 0 ==> !pairs[n - 1].value.Alias?)
    ensures Handled(FinderState(base + [FrameAfter(pairs, n)], found), ScalarEvent(pairs[n].key, pairs[n].line))
         == FinderState(base + [MappingFrame(KeysOf(pairs, n + 1), false)],
                        found + if Repeated(pairs, n) then [DuplicateKey(pairs[n].key, pairs[n].line)] else [])
  {
    assert KeysOf(pairs, n + 1) == KeysOf(pairs, n) + {pairs[n].key};
    var stack := base + [FrameAfter(pairs, n)];
    var waiting := MappingFrame(KeysOf(pairs, n + 1), false);
    assert stack[|stack| - 1 := waiting] == base + [waiting];
    assert found + [] == found;
  }

  lemma {:induction false} PairStream(s: FinderState, pairs: seq<Pair>, n: nat)
    requires n <= |pairs| && AliasSafe(Mapping(pairs))
    ensures Run(FinderState(s.stack + [FrameAfter(pairs, 0)], s.found), PairEvents(pairs, n))
         == FinderState(s.stack + [FrameAfter(pairs, n)], s.found + PairRepeats(pairs, n))
    decreases pairs, n
  {
    hide Handled, Events, Repeats;
    var start := FinderState(s.stack + [FrameAfter(pairs, 0)], s.found);
    if n == 0 {
      assert s.found + [] == s.found;
    } else {
      var p := pairs[n - 1];
      var key := ScalarEvent(p.key, p.line);
      PairStream(s, pairs, n - 1);
      var before := FinderState(s.stack + [FrameAfter(pairs, n - 1)], s.found + PairRepeats(pairs, n - 1));
      RunConcat(start, PairEvents(pairs, n - 1), [key] + Events(p.value));
      RunConcat(before, [key], Events(p.value));
      RunOne(before, key);
      KeyStep(s.stack, before.found, pairs, n - 1);
      var repeat := if Repeated(pairs, n - 1) then [DuplicateKey(p.key, p.line)] else [];
      var waiting := s.stack + [MappingFrame(KeysOf(pairs, n), false)];
      NodeStream(FinderState(waiting, before.found + repeat), p.value);
      assert Consumed(p.value, waiting) == s.stack + [FrameAfter(pairs, n)];
      Assoc(s.found, PairRepeats(pairs, n - 1), repeat);
      Assoc(s.found, PairRepeats(pairs, n - 1) + repeat, Repeats(p.value));
    }
  }

  /**
   Stream equals tree. Running the finder over the events of a node, wherever a value may stand, leaves
   the stack as consuming one value leaves it and appends exactly the repeats of the tree, in order.
   */
  lemma StreamEqualsTree(s: FinderState, t: Node)
    requires AliasSafe(t) && !t.Alias? && !AwaitsKey(s.stack)
    ensures Run(s, Events(t)) == FinderState(ValueDone(s.stack), s.found + Repeats(t))
  {
    NodeStream(s, t);
  }

  /** The events of a whole stream: each document's node between markers the finder passes over. */
  function StreamEvents(docs: seq<Node>): seq<Event> {
    if docs == [] then [Other] else StreamEvents(docs[..|docs| - 1]) + [Other] + Events(docs[|docs| - 1]) + [Other]
  }

  function StreamRepeats(docs: seq<Node>): seq<DuplicateKey> {
    if docs == [] then [] else StreamRepeats(docs[..|docs| - 1]) + Repeats(docs[|docs| - 1])
  }

  /** A fresh finder ends a stream of documents with an empty stack and their repeats in order. */
  lemma {:induction false} FinderIsExact(docs: seq<Node>)
    requires forall i :: 0 <= i < |docs| ==> AliasSafe(docs[i]) && !docs[i].Alias?
    ensures Run(FinderState([], []), StreamEvents(docs)) == FinderState([], StreamRepeats(docs))
  {
    hide Events, Repeats;
    var init := FinderState([], []);
    if docs == [] {
      RunOne(init, Other);
    } else {
      var front, last := docs[..|docs| - 1], docs[|docs| - 1];
      FinderIsExact(front);
      var mid := FinderState([], StreamRepeats(front));
      RunConcat(init, StreamEvents(front) + [Other] + Events(last), [Other]);
      RunConcat(init, StreamEvents(front) + [Other], Events(last));
      RunConcat(init, StreamEvents(front), [Other]);
      RunOne(mid, Other);
      StreamEqualsTree(mid, last);
      RunOne(FinderState([], StreamRepeats(docs)), Other);
    }
  }

  // ---------------------------------------------------------------------------------------------
  // What a clean report means
  // ---------------------------------------------------------------------------------------------

  /** Every mapping in the tree has distinct keys (section 3.2.1.1 of YAML 1.2.2), compared as texts. */
  predicate UniqueKeys(t: Node)
    decreases t
  {
    match t
    case Leaf(_, _) => true
    case Alias => true
    case List(items) => forall i | 0 <= i < |items| :: UniqueKeys(items[i])
    case Mapping(pairs) =>
      && (forall i, j | 0 <= i < j < |pairs| :: pairs[i].key != pairs[j].key)
      && (forall i | 0 <= i < |pairs| :: UniqueKeys(pairs[i].value))
  }

  /** No repeats exactly when the keys of every mapping are unique. */
  lemma {:induction false} CleanIffUnique(t: Node)
    ensures Repeats(t) == [] <==> UniqueKeys(t)
    decreases t, 1
  {
    match t {
      case Leaf(_, _) =>
      case Alias =>
      case List(items) =>
        ItemsClean(items, |items|);
      case Mapping(pairs) =>
        PairsClean(pairs, |pairs|);
        assert (forall i :: 0 <= i < |pairs| ==> !Repeated(pairs, i))
          <==> (forall i, j :: 0 <= i < j < |pairs| ==> pairs[i].key != pairs[j].key);
    }
  }

  lemma {:induction false} ItemsClean(items: seq<Node>, n: nat)
    requires n <= |items|
    ensures ItemRepeats(items, n) == [] <==> forall i :: 0 <= i < n ==> UniqueKeys(items[i])
    decreases items, n
  {
    if n > 0 {
      ItemsClean(items, n - 1);
      CleanIffUnique(items[n - 1]);
    }
  }

  lemma {:induction false} PairsClean(pairs: seq<Pair>, n: nat)
    requires n <= |pairs|
    ensures PairRepeats(pairs, n) == []
       <==> forall i :: 0 <= i < n ==> !Repeated(pairs, i) && UniqueKeys(pairs[i].value)
    decreases pairs, n
  {
    if n > 0 {
      PairsClean(pairs, n - 1);
      CleanIffUnique(pairs[n - 1].value);
    }
  }
}

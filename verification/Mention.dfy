/** Mention recognition and resolution (crates/daemonseed-core/src/mention.rs), over characters rather than bytes. */
module Mention {
  import opened Wrappers
  import opened Handle

  /** The half-open range of one mention. */
  datatype Span = Span(start: nat, end: nat)

  function Needle(own: Handle): string {
    "@" + Print(own)
  }

  predicate OccursAt(text: string, needle: string, i: nat) {
    i + |needle| <= |text| && text[i..i + |needle|] == needle
  }

  /** Left-to-right matches, each search resuming after the last match. */
  function MatchIndices(text: string, needle: string, from: nat): seq<nat>
    requires needle != ""
    decreases |text| - from
  {
    if from + |needle| > |text| then []
    else if OccursAt(text, needle, from) then [from] + MatchIndices(text, needle, from + |needle|)
    else MatchIndices(text, needle, from + 1)
  }

  /** No alphanumeric before the `@`, and no hex digit after the prefix. */
  predicate AtBoundary(isAlphanumeric: char -> bool, text: string, start: nat, end: nat)
    requires start <= end <= |text|
  {
    && (start > 0 ==> !isAlphanumeric(text[start - 1]))
    && (end < |text| ==> !IsHexDigit(text[end]))
  }

  function Kept(isAlphanumeric: char -> bool, text: string, starts: seq<nat>, n: nat): seq<Span>
    requires forall i :: 0 <= i < |starts| ==> starts[i] + n <= |text|
  {
    if starts == [] then []
    else
      var rest := Kept(isAlphanumeric, text, starts[1..], n);
      if AtBoundary(isAlphanumeric, text, starts[0], starts[0] + n)
      then [Span(starts[0], starts[0] + n)] + rest
      else rest
  }

  function FindSelfMentions(isAlphanumeric: char -> bool, text: string, own: Handle): seq<Span> {
    var needle := Needle(own);
    var starts := MatchIndices(text, needle, 0);
    assert forall i :: 0 <= i < |starts| ==> starts[i] + |needle| <= |text| by {
      MatchesOccur(text, needle, 0);
    }
    Kept(isAlphanumeric, text, starts, |needle|)
  }

  lemma {:induction false} MatchesOccur(text: string, needle: string, from: nat)
    requires needle != ""
    ensures forall i :: 0 <= i < |MatchIndices(text, needle, from)| ==>
              from <= MatchIndices(text, needle, from)[i] && OccursAt(text, needle, MatchIndices(text, needle, from)[i])
    ensures forall i, j :: 0 <= i < j < |MatchIndices(text, needle, from)| ==>
              MatchIndices(text, needle, from)[i] + |needle| <= MatchIndices(text, needle, from)[j]
    decreases |text| - from
  {
    if from + |needle| <= |text| {
      if OccursAt(text, needle, from) {
        MatchesOccur(text, needle, from + |needle|);
        var rest := MatchIndices(text, needle, from + |needle|);
        assert MatchIndices(text, needle, from) == [from] + rest;
        assert forall i :: 1 <= i < |[from] + rest| ==> ([from] + rest)[i] == rest[i - 1];
      } else {
        MatchesOccur(text, needle, from + 1);
      }
    }
  }

  // ---------------------------------------------------------------------------------------------
  // Why resuming after a match misses nothing
  // ---------------------------------------------------------------------------------------------

  /** Some proper, non-empty start of the string is also its end. */
  ghost predicate HasBorder(s: string) {
    exists k :: 0 < k < |s| && s[..k] == s[|s| - k..]
  }

  /** For every parsed handle: `#` stands in one place, and no hex digit is `@`. */
  lemma NeedleHasNoBorder(own: Handle)
    requires Printable(own.displayName)
    ensures !HasBorder(Needle(own))
  {
    var s := Needle(own);
    var name := if own.displayName.Some? then own.displayName.value else "";
    var hash := 1 + |name|;
    assert |s| == hash + 13 && s[hash] == '#' && s[0] == '@';
    assert forall i :: 1 <= i < hash ==> s[i] == name[i - 1] && s[i] in name;
    assert forall i :: hash < i < |s| ==> s[i] == HexText(own.hashPrefix)[i - hash - 1];
    forall k | 0 < k < |s|
      ensures s[..k] != s[|s| - k..]
    {
      var end := s[|s| - k..];
      if k <= 12 {
        assert end[0] == s[|s| - k] && s[..k][0] == '@';
      } else {
        assert end[k - 13] == s[hash] && s[..k][k - 13] == s[k - 13];
      }
    }
  }

  /** Two occurrences that overlap give the string a border. */
  lemma OverlapIsBorder(text: string, needle: string, i: nat, j: nat)
    requires OccursAt(text, needle, i) && OccursAt(text, needle, j) && i < j < i + |needle|
    ensures HasBorder(needle)
  {
    var k := i + |needle| - j;
    assert needle[|needle| - k..] == text[j..j + k] == needle[..k];
  }

  lemma {:induction false} GreedyFindsAll(text: string, needle: string, from: nat, i: nat)
    requires needle != "" && !HasBorder(needle) && from <= i && OccursAt(text, needle, i)
    ensures i in MatchIndices(text, needle, from)
    decreases |text| - from
  {
    if from < i {
      if OccursAt(text, needle, from) {
        if i < from + |needle| {
          OverlapIsBorder(text, needle, from, i);
        }
        GreedyFindsAll(text, needle, from + |needle|, i);
      } else {
        GreedyFindsAll(text, needle, from + 1, i);
      }
    }
  }

  lemma {:induction false} KeptMembers(isAlphanumeric: char -> bool, text: string, starts: seq<nat>, n: nat, s: Span)
    requires forall i :: 0 <= i < |starts| ==> starts[i] + n <= |text|
    ensures s in Kept(isAlphanumeric, text, starts, n) <==>
              s.start in starts && s.end == s.start + n && AtBoundary(isAlphanumeric, text, s.start, s.end)
  {
    if starts != [] {
      KeptMembers(isAlphanumeric, text, starts[1..], n, s);
      assert s.start in starts <==> s.start == starts[0] || s.start in starts[1..];
    }
  }

  lemma {:induction false} KeptInOrder(isAlphanumeric: char -> bool, text: string, starts: seq<nat>, n: nat,
                                       spans: seq<Span>)
    requires forall i :: 0 <= i < |starts| ==> starts[i] + n <= |text|
    requires forall i, j :: 0 <= i < j < |starts| ==> starts[i] + n <= starts[j]
    requires spans == Kept(isAlphanumeric, text, starts, n)
    ensures forall i, j :: 0 <= i < j < |spans| ==> spans[i].end <= spans[j].start
    decreases |starts|
  {
    if starts != [] {
      var rest := Kept(isAlphanumeric, text, starts[1..], n);
      KeptInOrder(isAlphanumeric, text, starts[1..], n, rest);
      forall i | 0 <= i < |rest|
        ensures starts[0] + n <= rest[i].start
      {
        KeptMembers(isAlphanumeric, text, starts[1..], n, rest[i]);
        var j :| 0 <= j < |starts[1..]| && starts[1..][j] == rest[i].start;
        assert starts[j + 1] == rest[i].start;
      }
    }
  }

  /**
   Mention search is exact: for every text and every parsed handle, the spans found are precisely the
   places where the text reads `@` and the printed handle, with no alphanumeric before them and none of
   0-9, a-f and A-F behind them, in order and disjoint.
   */
  lemma MentionsAreExact(isAlphanumeric: char -> bool, text: string, own: Handle, spans: seq<Span>)
    requires Printable(own.displayName) && spans == FindSelfMentions(isAlphanumeric, text, own)
    ensures forall s :: s in spans <==>
              && s.start <= s.end <= |text| && text[s.start..s.end] == "@" + Print(own)
              && (s.start == 0 || !isAlphanumeric(text[s.start - 1]))
              && (s.end == |text| || text[s.end] !in "0123456789abcdefABCDEF")
    ensures forall i, j :: 0 <= i < j < |spans| ==> spans[i].end <= spans[j].start
  {
    var needle := Needle(own);
    var starts := MatchIndices(text, needle, 0);
    NeedleHasNoBorder(own);
    MatchesOccur(text, needle, 0);
    assert spans == Kept(isAlphanumeric, text, starts, |needle|);
    KeptInOrder(isAlphanumeric, text, starts, |needle|, spans);
    forall s
      ensures s in spans <==>
                && s.start <= s.end <= |text| && text[s.start..s.end] == "@" + Print(own)
                && (s.start == 0 || !isAlphanumeric(text[s.start - 1]))
                && (s.end == |text| || text[s.end] !in "0123456789abcdefABCDEF")
    {
      KeptMembers(isAlphanumeric, text, starts, |needle|, s);
      if OccursAt(text, needle, s.start) {
        GreedyFindsAll(text, needle, 0, s.start);
      }
      if s.end < |text| {
        HexDigits(text[s.end]);
      }
    }
  }

  lemma HexDigits(c: char)
    ensures IsHexDigit(c) <==> c in "0123456789abcdefABCDEF"
  {
    var all := "0123456789abcdefABCDEF";
    if IsHexDigit(c) {
      var k := if c <= '9' then c as int - 48 else if c <= 'F' then c as int - 65 + 16 else c as int - 97 + 10;
      assert all[k] == c;
    }
  }

  // ---------------------------------------------------------------------------------------------
  // Resolution
  // ---------------------------------------------------------------------------------------------

  datatype MentionResolution = Resolved(handle: Handle) | Ambiguous(handles: seq<Handle>) | NotFound

  function Named(scope: seq<Handle>, name: string): seq<Handle> {
    if scope == [] then []
    else (if scope[0].displayName == Some(name) then [scope[0]] else []) + Named(scope[1..], name)
  }

  function ResolveMention(typed: string, scope: seq<Handle>): MentionResolution {
    match Parse(typed)
    case Ok(handle) => Resolved(handle)
    case Err(_) =>
      var matches := Named(scope, typed);
      if |matches| == 0 then NotFound else if |matches| == 1 then Resolved(matches[0]) else Ambiguous(matches)
  }

  /** The places in scope, in order, of the handles with this very name. */
  ghost predicate AreNamed(scope: seq<Handle>, name: string, at: seq<nat>) {
    && (forall i :: 0 <= i < |at| ==> at[i] < |scope|)
    && (forall i, j :: 0 <= i < j < |at| ==> at[i] < at[j])
    && (forall k :: 0 <= k < |scope| ==> (scope[k].displayName == Some(name) <==> k in at))
  }

  ghost predicate Picks(scope: seq<Handle>, at: seq<nat>, hs: seq<Handle>) {
    |hs| == |at| && forall i :: 0 <= i < |at| ==> at[i] < |scope| && hs[i] == scope[at[i]]
  }

  lemma {:induction false} NamedExactly(scope: seq<Handle>, name: string) returns (at: seq<nat>)
    ensures AreNamed(scope, name, at) && Picks(scope, at, Named(scope, name))
  {
    if scope == [] {
      at := [];
    } else {
      hide Named, AreNamed, Picks;
      var n := |scope| - 1;
      var first, h := scope[..n], scope[n];
      var before := NamedExactly(first, name);
      NamedSnoc(first, h, name);
      assert scope == first + [h];
      at := if h.displayName == Some(name) then before + [n] else before;
      OnePlaceMore(first, h, name, before);
      OnePickMore(first, h, before, Named(first, name));
    }
  }

  lemma OnePlaceMore(scope: seq<Handle>, h: Handle, name: string, at: seq<nat>)
    requires AreNamed(scope, name, at)
    ensures AreNamed(scope + [h], name, if h.displayName == Some(name) then at + [|scope|] else at)
  {
    assert |scope| !in at;
    assert forall k :: k in at + [|scope|] <==> k in at || k == |scope|;
  }

  lemma OnePickMore(scope: seq<Handle>, h: Handle, at: seq<nat>, hs: seq<Handle>)
    requires Picks(scope, at, hs)
    ensures Picks(scope + [h], at, hs) && Picks(scope + [h], at + [|scope|], hs + [h])
  {
  }

  lemma {:induction false} NamedSnoc(scope: seq<Handle>, h: Handle, name: string)
    ensures Named(scope + [h], name) == Named(scope, name) + if h.displayName == Some(name) then [h] else []
  {
    if scope == [] {
      assert [h][1..] == [];
    } else {
      var rest := scope[1..] + [h];
      assert (scope + [h])[1..] == rest;
      NamedSnoc(scope[1..], h, name);
      var first := if scope[0].displayName == Some(name) then [scope[0]] else [];
      assert Named(scope, name) == first + Named(scope[1..], name);
      assert Named(scope + [h], name) == first + Named(rest, name);
    }
  }

  /**
   A typed full handle resolves to itself whatever is in scope. Any other text resolves by the places in
   scope that bear exactly that name: to the handle there when there is one place, to the handles there
   in their order when there are more, and to nothing exactly when there is none.
   */
  lemma ResolutionStaysInScope(typed: string, scope: seq<Handle>) returns (at: seq<nat>)
    ensures AreNamed(scope, typed, at)
    ensures match Parse(typed)
            case Ok(handle) => ResolveMention(typed, scope) == Resolved(handle)
            case Err(_) =>
              match ResolveMention(typed, scope)
              case NotFound => at == []
              case Resolved(h) => Picks(scope, at, [h])
              case Ambiguous(hs) => |at| > 1 && Picks(scope, at, hs)
  {
    at := NamedExactly(scope, typed);
    var matches := Named(scope, typed);
    assert |matches| == 1 ==> matches == [matches[0]];
  }
}

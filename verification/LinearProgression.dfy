/**
 Progression tests on issue-tracker updates: test `k` asks that the target issue
 went through the first `k + 1` expected states in order.
 */
module LinearProgression {
  type State = string

  /** A logged tool call; `aimed` says that its arguments name the target issue, `state` is normalized. */
  datatype Call = Call(tool: string, ok: bool, aimed: bool, state: State)

  predicate Counts(c: Call) {
    c.tool == "update_issue" && c.ok && c.aimed
  }

  /** The states set by successful updates of the target, blanks left out. */
  function Seen(calls: seq<Call>): seq<State> {
    if calls == [] then [] else
      var rest := Seen(calls[..|calls| - 1]);
      var last := calls[|calls| - 1];
      if Counts(last) && last.state != "" then rest + [last.state] else rest
  }

  /** `a` occurs in `b`, in order, not necessarily without gaps. */
  ghost predicate Subsequence(a: seq<State>, b: seq<State>) {
    a == [] || (b != [] && (Subsequence(a, b[..|b| - 1]) ||
                            (a[|a| - 1] == b[|b| - 1] && Subsequence(a[..|a| - 1], b[..|b| - 1]))))
  }

  lemma {:induction false} PrefixSubsequence(a: seq<State>, n: nat, b: seq<State>)
    requires n <= |a| && Subsequence(a, b)
    ensures Subsequence(a[..n], b)
    decreases |b|
  {
    if n == |a| {
      assert a[..n] == a;
    } else if n > 0 {
      var b' := b[..|b| - 1];
      if Subsequence(a, b') {
        PrefixSubsequence(a, n, b');
      } else {
        PrefixSubsequence(a[..|a| - 1], n, b');
        assert a[..|a| - 1][..n] == a[..n];
      }
    }
  }

  // ------------------------------------------------------------ in terms of the calls

  /** The calls at the places `at`, in order, are successful updates of the target that set the states `a`. */
  ghost predicate Places(calls: seq<Call>, a: seq<State>, at: seq<nat>) {
    && |at| == |a|
    && (forall j, k :: 0 <= j < k < |at| ==> at[j] < at[k])
    && (forall j :: 0 <= j < |at| ==>
          && at[j] < |calls| && calls[at[j]].state == a[j] && a[j] != ""
          && calls[at[j]].tool == "update_issue" && calls[at[j]].ok && calls[at[j]].aimed)
  }

  /** The target went through the states `a` in order. */
  ghost predicate WentThrough(calls: seq<Call>, a: seq<State>) {
    exists at :: Places(calls, a, at)
  }

  lemma {:induction false} FindPlaces(calls: seq<Call>, a: seq<State>) returns (at: seq<nat>)
    requires Subsequence(a, Seen(calls))
    ensures Places(calls, a, at)
    decreases |calls|
  {
    at := [];
    if a != [] {
      var n, m := |calls| - 1, |a| - 1;
      var init := calls[..n];
      if Subsequence(a, Seen(init)) {
        at := FindPlaces(init, a);
      } else {
        assert Seen(calls)[..|Seen(calls)| - 1] == Seen(init);
        at := FindPlaces(init, a[..m]);
        at := at + [n];
      }
    }
  }

  lemma {:induction false} PlacesFound(calls: seq<Call>, a: seq<State>, at: seq<nat>)
    requires Places(calls, a, at)
    ensures Subsequence(a, Seen(calls))
    decreases |calls|
  {
    if a != [] {
      var n, m := |calls| - 1, |a| - 1;
      assert at[m] <= n;
      var init := calls[..n];
      if at[m] < n {
        PlacesFound(init, a, at);
      } else {
        PlacesFound(init, a[..m], at[..m]);
      }
      assert Counts(calls[n]) && calls[n].state != "" ==> Seen(calls)[..|Seen(calls)| - 1] == Seen(init);
    }
  }

  /** The states occur in order exactly when calls that set them do. */
  lemma PlacesExactly(calls: seq<Call>, a: seq<State>)
    ensures Subsequence(a, Seen(calls)) <==> WentThrough(calls, a)
  {
    if Subsequence(a, Seen(calls)) {
      var at := FindPlaces(calls, a);
    }
    if at :| Places(calls, a, at) {
      PlacesFound(calls, a, at);
    }
  }

  // ------------------------------------------------------------ the matcher

  /** How many of the expected states, from the first on, occur in order. */
  function Matched(expected: seq<State>, seen: seq<State>): (n: nat)
    ensures n <= |expected|
  {
    if seen == [] then 0 else
      var n := Matched(expected, seen[..|seen| - 1]);
      if n < |expected| && expected[n] == seen[|seen| - 1] then n + 1 else n
  }

  /** Taking each state at its first chance finds the longest prefix that is a subsequence. */
  lemma {:induction false} MatchedIsLongest(expected: seq<State>, seen: seq<State>, n: nat)
    requires n <= |expected|
    ensures Subsequence(expected[..n], seen) <==> n <= Matched(expected, seen)
    decreases |seen|
  {
    if n > 0 && seen != [] {
      var init := seen[..|seen| - 1];
      MatchedIsLongest(expected, init, n);
      MatchedIsLongest(expected, init, n - 1);
      assert expected[..n][..n - 1] == expected[..n - 1];
    }
  }

  /** The matcher of test `index`: prerequisites first, then the wanted state. */
  method Passes(calls: seq<Call>, expected: seq<State>, index: nat) returns (success: bool)
    requires index < |expected|
    ensures success <==> WentThrough(calls, expected[..index + 1])
  {
    hide Subsequence, WentThrough, Counts;
    PlacesExactly(calls, expected[..index + 1]);
    var wanted, prerequisites := expected[index], expected[..index];
    var cursor := 0;
    for i := 0 to |calls|
      invariant cursor == Min(index, Matched(expected, Seen(calls[..i])))
      invariant Matched(expected, Seen(calls[..i])) <= index
    {
      var call := calls[i];
      assert calls[..i + 1][..i] == calls[..i];
      if !Counts(call) {
        continue;
      }
      var seen := call.state;
      if seen == "" {
        continue;
      }
      SeenNext(calls, i);
      if cursor < |prerequisites| && seen == prerequisites[cursor] {
        cursor := cursor + 1;
        continue;
      }
      if cursor == |prerequisites| && seen == wanted {
        MatchedGrows(expected, calls, i + 1);
        MatchedIsLongest(expected, Seen(calls), index + 1);
        return true;
      }
    }
    assert calls[..|calls|] == calls;
    MatchedIsLongest(expected, Seen(calls), index + 1);
    return false;
  }

  function Min(a: nat, b: nat): nat {
    if a < b then a else b
  }

  lemma SeenNext(calls: seq<Call>, i: nat)
    requires i < |calls| && Counts(calls[i]) && calls[i].state != ""
    ensures Seen(calls[..i + 1]) == Seen(calls[..i]) + [calls[i].state]
    ensures Seen(calls[..i + 1])[..|Seen(calls[..i])|] == Seen(calls[..i])
  {
    assert calls[..i + 1][..i] == calls[..i];
  }

  lemma {:induction false} MatchedGrows(expected: seq<State>, calls: seq<Call>, i: nat)
    requires i <= |calls|
    ensures Matched(expected, Seen(calls[..i])) <= Matched(expected, Seen(calls))
    decreases |calls| - i
  {
    if i == |calls| {
      assert calls[..i] == calls;
    } else {
      MatchedGrows(expected, calls, i + 1);
      assert calls[..i + 1][..i] == calls[..i];
      if Counts(calls[i]) && calls[i].state != "" {
        SeenNext(calls, i);
      }
    }
  }

  /** Passing a test implies passing every earlier one. */
  lemma PassingIsDownwardClosed(calls: seq<Call>, expected: seq<State>, k: nat, j: nat)
    requires j <= k < |expected| && WentThrough(calls, expected[..k + 1])
    ensures WentThrough(calls, expected[..j + 1])
  {
    PlacesExactly(calls, expected[..k + 1]);
    PlacesExactly(calls, expected[..j + 1]);
    PrefixSubsequence(expected[..k + 1], j + 1, Seen(calls));
    assert expected[..k + 1][..j + 1] == expected[..j + 1];
  }
}

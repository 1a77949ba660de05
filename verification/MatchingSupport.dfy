/** One-to-one matching of two lists: what is left unmatched, seen through a key. */
module MatchingSupport {
  import opened Wrappers
  import opened Sequences

  /** The items from `ci` on that are not used. */
  function Unmatched<T>(cs: seq<T>, used: set<nat>, ci: nat): seq<T>
    requires ci <= |cs|
    decreases |cs| - ci
  {
    if ci == |cs| then [] else (if ci in used then [] else [cs[ci]]) + Unmatched(cs, used, ci + 1)
  }

  /** What the unmatched candidates from `ci` on look like under `key`. */
  ghost function Left<T, K>(cs: seq<T>, used: set<nat>, ci: nat, key: T -> K): multiset<K>
    requires ci <= |cs|
    decreases |cs| - ci
  {
    if ci == |cs| then multiset{}
      else (if ci in used then multiset{} else multiset{key(cs[ci])}) + Left(cs, used, ci + 1, key)
  }

  ghost function KeysOf<T, K>(items: seq<T>, key: T -> K): multiset<K> {
    if |items| == 0 then multiset{} else multiset{key(items[0])} + KeysOf(items[1..], key)
  }

  lemma {:induction false} TakeOne<T, K>(cs: seq<T>, used: set<nat>, ci: nat, key: T -> K, c: nat)
    requires ci <= c < |cs| && c !in used
    ensures Left(cs, used, ci, key) == Left(cs, used + {c}, ci, key) + multiset{key(cs[c])}
    decreases |cs| - ci
  {
    if ci < c {
      TakeOne(cs, used, ci + 1, key, c);
    } else {
      TakeEarlier(cs, used, ci + 1, key, c);
    }
  }

  lemma {:induction false} TakeEarlier<T, K>(cs: seq<T>, used: set<nat>, ci: nat, key: T -> K, c: nat)
    requires c < ci <= |cs|
    ensures Left(cs, used + {c}, ci, key) == Left(cs, used, ci, key)
    decreases |cs| - ci
  {
    if ci < |cs| {
      TakeEarlier(cs, used, ci + 1, key, c);
    }
  }

  lemma {:induction false} LeftIsUnmatched<T, K>(cs: seq<T>, used: set<nat>, ci: nat, key: T -> K)
    requires ci <= |cs|
    ensures Left(cs, used, ci, key) == KeysOf(Unmatched(cs, used, ci), key)
    decreases |cs| - ci
  {
    if ci < |cs| {
      LeftIsUnmatched(cs, used, ci + 1, key);
      var rest := Unmatched(cs, used, ci + 1);
      ConcatTail([cs[ci]], rest);
      PrependEmpty(rest);
    }
  }

  lemma {:induction false} LeftOfNone<T, K>(cs: seq<T>, ci: nat, key: T -> K)
    requires ci <= |cs|
    ensures Left(cs, {}, ci, key) == KeysOf(cs[ci..], key)
    decreases |cs| - ci
  {
    if ci < |cs| {
      LeftOfNone(cs, ci + 1, key);
      assert cs[ci..][1..] == cs[ci + 1..];
    }
  }

  lemma {:induction false} KeysOfSnoc<T, K>(items: seq<T>, a: T, key: T -> K)
    ensures KeysOf(items + [a], key) == KeysOf(items, key) + multiset{key(a)}
  {
    if |items| > 0 {
      KeysOfSnoc(items[1..], a, key);
      assert (items + [a])[1..] == items[1..] + [a];
    } else {
      assert (items + [a])[1..] == [];
    }
  }

  lemma {:induction false} KeysOfSize<T, K>(items: seq<T>, key: T -> K)
    ensures |KeysOf(items, key)| == |items|
  {
    if |items| > 0 {
      KeysOfSize(items[1..], key);
    }
  }

  lemma {:induction false} SomeLeft<T, K>(cs: seq<T>, used: set<nat>, ci: nat, key: T -> K, k: K) returns (c: nat)
    requires ci <= |cs| && k in Left(cs, used, ci, key)
    ensures ci <= c < |cs| && c !in used && key(cs[c]) == k
    decreases |cs| - ci
  {
    if ci !in used && key(cs[ci]) == k {
      c := ci;
    } else {
      c := SomeLeft(cs, used, ci + 1, key, k);
    }
  }

  lemma Exchange<K>(s: multiset<K>, l: multiset<K>, k: K)
    ensures (s + multiset{k}) + l == s + (l + multiset{k})
  {
  }

  lemma Cancel<K>(x: multiset<K>, y: multiset<K>, k: K)
    requires x + multiset{k} == multiset{k} + y
    ensures x == y
  {
    assert x == (x + multiset{k}) - multiset{k} && y == (multiset{k} + y) - multiset{k};
  }

  /** How many positions from `ci` to `i` are not used. */
  function UnusedFrom(used: set<nat>, ci: nat, i: nat): nat
    requires ci <= i
    decreases i - ci
  {
    if ci == i then 0 else (if ci in used then 0 else 1) + UnusedFrom(used, ci + 1, i)
  }

  /**
   The unmatched items keep their order: each stands after as many as there are before it, and there are no others.
   */
  lemma {:induction false} UnmatchedAt<T>(cs: seq<T>, used: set<nat>, ci: nat, i: nat)
    requires ci <= i <= |cs|
    ensures UnusedFrom(used, ci, i) <= |Unmatched(cs, used, ci)|
    ensures i == |cs| ==> |Unmatched(cs, used, ci)| == UnusedFrom(used, ci, i)
    ensures i < |cs| && i !in used ==> UnusedFrom(used, ci, i) < |Unmatched(cs, used, ci)|
                                       && Unmatched(cs, used, ci)[UnusedFrom(used, ci, i)] == cs[i]
    decreases i - ci
  {
    if ci < i {
      UnmatchedAt(cs, used, ci + 1, i);
    }
  }

  lemma {:induction false} UnmatchedIsUnused<T>(cs: seq<T>, used: set<nat>, ci: nat, x: T) returns (c: nat)
    requires ci <= |cs| && x in Unmatched(cs, used, ci)
    ensures ci <= c < |cs| && c !in used && cs[c] == x
    decreases |cs| - ci
  {
    if ci !in used && cs[ci] == x {
      c := ci;
    } else {
      c := UnmatchedIsUnused(cs, used, ci + 1, x);
    }
  }

  // ----- Choices of one list among the positions of another -----

  ghost function Taken(choices: seq<Option<nat>>): set<nat> {
    if |choices| == 0 then {}
    else
      Taken(choices[..|choices| - 1])
      + if choices[|choices| - 1].Some? then {choices[|choices| - 1].value} else {}
  }

  /** The positions that chose. */
  ghost function Choosers(choices: seq<Option<nat>>): set<nat> {
    if |choices| == 0 then {}
    else Choosers(choices[..|choices| - 1]) + if choices[|choices| - 1].Some? then {|choices| - 1} else {}
  }

  ghost function CountSome(choices: seq<Option<nat>>): nat {
    if |choices| == 0 then 0
    else CountSome(choices[..|choices| - 1]) + if choices[|choices| - 1].Some? then 1 else 0
  }

  lemma Snoc(choices: seq<Option<nat>>, choice: Option<nat>)
    ensures var all := choices + [choice];
            all[..|choices|] == choices && all[|choices|] == choice && all[..|all| - 1] == choices
  {
  }

  lemma {:induction false} TakenHas(choices: seq<Option<nat>>, s: nat)
    requires s < |choices| && choices[s].Some?
    ensures choices[s].value in Taken(choices)
  {
    if s < |choices| - 1 {
      TakenHas(choices[..|choices| - 1], s);
    }
  }

  lemma {:induction false} ChoosersAre(choices: seq<Option<nat>>, s: nat)
    ensures s in Choosers(choices) <==> s < |choices| && choices[s].Some?
  {
    if |choices| > 0 {
      ChoosersAre(choices[..|choices| - 1], s);
    }
  }
}

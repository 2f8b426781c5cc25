/**
 * The secret-friend draw (`drawFriend`): the receivers are a Fisher-Yates
 * shuffle of the roster, paired position by position with the roster in its
 * original order; the draw is rejected outright when the roster has fewer
 * than three names or when the shuffle leaves anyone receiving from
 * themself.
 *
 * The random source is injected: `js[k]` is the index chosen at the k-th step
 * of the shuffle, the step whose loop index is `i = n - 1 - k`, and it lies
 * in `[0, i]` just as `Math.floor(Math.random() * (i + 1))` does.
 */
module Assigner {

  /** One line of the result: `giver` gives a present to `receiver`. */
  datatype Pair = Pair(giver: string, receiver: string)

  datatype DrawOutcome =
    | TooFewFriends             // fewer than MinFriends names on the roster
    | SelfAssignment            // the shuffle paired somebody with themself
    | Drawn(pairs: seq<Pair>)   // one pair per roster entry, in roster order

  /** The smallest roster a draw is attempted on. */
  const MinFriends := 3

  /** `js` holds a choice in `[0, i]` for every step `i = n-1, ..., 1` of a
      shuffle of `n` elements. */
  predicate ValidChoices(n: nat, js: seq<int>) {
    |js| >= n - 1 && forall k :: 0 <= k < n - 1 ==> 0 <= js[k] <= n - 1 - k
  }

  /** Exchanges the elements at `i` and `j`. */
  function Swap<T>(s: seq<T>, i: nat, j: nat): (r: seq<T>)
    requires i < |s| && j < |s|
    ensures |r| == |s|
  {
    s[i := s[j]][j := s[i]]
  }

  lemma SwapIsPermutation<T>(s: seq<T>, i: nat, j: nat)
    requires i < |s| && j < |s|
    ensures multiset(Swap(s, i, j)) == multiset(s)
  {
  }

  /** The steps `i, i-1, ..., 1` of the Fisher-Yates loop applied to `s`. */
  function ShuffleFrom<T>(s: seq<T>, js: seq<int>, i: nat): (r: seq<T>)
    requires i < |s| && ValidChoices(|s|, js)
    ensures |r| == |s|
    decreases i
  {
    if i == 0 then s
    else ShuffleFrom(Swap(s, i, js[|s| - 1 - i]), js, i - 1)
  }

  /** One step of the loop: step `i` swaps, then steps `i-1, ..., 1` follow. */
  lemma ShuffleStep<T>(s: seq<T>, js: seq<int>, i: nat)
    requires 0 < i < |s| && ValidChoices(|s|, js)
    ensures ShuffleFrom(s, js, i) == ShuffleFrom(Swap(s, i, js[|s| - 1 - i]), js, i - 1)
  {
  }

  /** The receivers' order after the whole Fisher-Yates loop. */
  function Shuffled<T>(s: seq<T>, js: seq<int>): (r: seq<T>)
    requires ValidChoices(|s|, js)
    ensures |r| == |s|
  {
    if s == [] then s else ShuffleFrom(s, js, |s| - 1)
  }

  lemma {:induction false} ShuffleFromIsPermutation<T>(s: seq<T>, js: seq<int>, i: nat)
    requires i < |s| && ValidChoices(|s|, js)
    ensures multiset(ShuffleFrom(s, js, i)) == multiset(s)
    decreases i
  {
    if i > 0 {
      var j := js[|s| - 1 - i];
      SwapIsPermutation(s, i, j);
      ShuffleFromIsPermutation(Swap(s, i, j), js, i - 1);
    }
  }

  /** Whatever the (in-range) choices, the shuffle only reorders the roster. */
  lemma ShuffledIsPermutation<T>(s: seq<T>, js: seq<int>)
    requires ValidChoices(|s|, js)
    ensures |Shuffled(s, js)| == |s|
    ensures multiset(Shuffled(s, js)) == multiset(s)
  {
    if s != [] {
      ShuffleFromIsPermutation(s, js, |s| - 1);
    }
  }

  /** Some position pairs a giver with the identical (exactly equal) name. */
  predicate HasSelfAssignment(givers: seq<string>, receivers: seq<string>)
    requires |givers| == |receivers|
  {
    exists k :: 0 <= k < |givers| && givers[k] == receivers[k]
  }

  /** Position `k` of the pairing is `(givers[k], receivers[k])`. */
  function Pairing(givers: seq<string>, receivers: seq<string>): (p: seq<Pair>)
    requires |givers| == |receivers|
  {
    seq(|givers|, k requires 0 <= k < |givers| => Pair(givers[k], receivers[k]))
  }

  /** The receivers named by a pairing, in order. */
  function Receivers(p: seq<Pair>): (r: seq<string>)
    ensures |r| == |p|
  {
    seq(|p|, k requires 0 <= k < |p| => p[k].receiver)
  }

  /** What a draw over `friends` with choices `js` produces. No choice is
      made, so none is needed, when the roster is too small. */
  function Assignment(friends: seq<string>, js: seq<int>): DrawOutcome
    requires |friends| >= MinFriends ==> ValidChoices(|friends|, js)
  {
    if |friends| < MinFriends then TooFewFriends
    else
      var receivers := Shuffled(friends, js);
      if HasSelfAssignment(friends, receivers) then SelfAssignment
      else Drawn(Pairing(friends, receivers))
  }

  /** A successful draw is a complete secret-friend assignment: one pair per
      roster entry, the givers being the roster in its own order, the
      receivers a rearrangement of the roster, and nobody giving to
      themself. */
  lemma DrawnIsDerangement(friends: seq<string>, js: seq<int>)
    requires |friends| >= MinFriends ==> ValidChoices(|friends|, js)
    requires Assignment(friends, js).Drawn?
    ensures var p := Assignment(friends, js).pairs;
            |p| == |friends| &&
            (forall k :: 0 <= k < |p| ==> p[k].giver == friends[k] && p[k].giver != p[k].receiver) &&
            multiset(Receivers(p)) == multiset(friends)
  {
    var receivers := Shuffled(friends, js);
    var p := Pairing(friends, receivers);
    assert Receivers(p) == receivers;
    ShuffledIsPermutation(friends, js);
  }

  /** The draw fails exactly when the roster is too small or the shuffle has
      a fixed point; otherwise it returns the positional pairing. */
  lemma DrawSucceedsIff(friends: seq<string>, js: seq<int>)
    requires |friends| >= MinFriends ==> ValidChoices(|friends|, js)
    ensures Assignment(friends, js).TooFewFriends? <==> |friends| < MinFriends
    ensures Assignment(friends, js).Drawn? <==>
              |friends| >= MinFriends && ValidChoices(|friends|, js) &&
              forall k :: 0 <= k < |friends| ==> friends[k] != Shuffled(friends, js)[k]
  {
  }

  /** Three friends whose choices rotate the roster draw successfully; a
      shuffle that leaves the roster unchanged fails; two friends are too
      few whatever the choices. */
  lemma DrawScenarios(js: seq<int>)
    ensures Assignment(["Ana", "Beto", "Caro"], [1, 0]) ==
              Drawn([Pair("Ana", "Caro"), Pair("Beto", "Ana"), Pair("Caro", "Beto")])
    ensures Assignment(["Ana", "Beto", "Caro"], [2, 1]) == SelfAssignment
    ensures Assignment(["Ana", "Beto"], js) == TooFewFriends
  {
    var s := ["Ana", "Beto", "Caro"];
    assert Shuffled(s, [1, 0]) == ["Caro", "Ana", "Beto"];
    assert Shuffled(s, [2, 1]) == s;
    assert Pairing(s, ["Caro", "Ana", "Beto"]) ==
             [Pair("Ana", "Caro"), Pair("Beto", "Ana"), Pair("Caro", "Beto")];
    assert s[0] == Shuffled(s, [2, 1])[0];
  }

  /** Copies `friends` twice, shuffles the receivers' copy in place, then
      scans the positions, giving up at the first self-assignment. */
  method Draw(friends: seq<string>, js: seq<int>) returns (outcome: DrawOutcome)
    requires |friends| >= MinFriends ==> ValidChoices(|friends|, js)
    ensures outcome == Assignment(friends, js)
  {
    if |friends| < MinFriends {
      return TooFewFriends;
    }
    var givers := new string[|friends|](k requires 0 <= k < |friends| => friends[k]);
    var receivers := new string[|friends|](k requires 0 <= k < |friends| => friends[k]);
    assert receivers[..] == friends;
    Shuffle(receivers, js);
    ghost var shuffled := Shuffled(friends, js);
    assert receivers[..] == shuffled;
    var pairs: seq<Pair> := [];
    var i := 0;
    while i < givers.Length
      invariant 0 <= i <= givers.Length
      invariant |pairs| == i
      invariant forall k :: 0 <= k < i ==> pairs[k] == Pair(friends[k], shuffled[k])
      invariant forall k :: 0 <= k < i ==> friends[k] != shuffled[k]
    {
      var giver := givers[i];
      var receiver := receivers[i];
      if giver == receiver {
        return SelfAssignment;
      }
      pairs := pairs + [Pair(giver, receiver)];
      i := i + 1;
    }
    assert pairs == Pairing(friends, shuffled);
    outcome := Drawn(pairs);
  }

  /** The Fisher-Yates loop, in place on `a`. */
  method Shuffle(a: array<string>, js: seq<int>)
    requires ValidChoices(a.Length, js)
    modifies a
    ensures a[..] == Shuffled(old(a[..]), js)
    ensures multiset(a[..]) == multiset(old(a[..]))
  {
    ShuffledIsPermutation(a[..], js);
    if a.Length == 0 {
      return;
    }
    ghost var target := Shuffled(a[..], js);
    var i := a.Length - 1;
    while i > 0
      invariant 0 <= i < a.Length
      invariant ShuffleFrom(a[..], js, i) == target
    {
      var j := js[a.Length - 1 - i];
      ghost var before := a[..];
      a[i], a[j] := a[j], a[i];
      assert a[..] == Swap(before, i, j);
      ShuffleStep(before, js, i);
      i := i - 1;
    }
  }
}

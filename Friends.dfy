/**
 * The participant roster of the secret-friend game: the global `friends`
 * array of app.js and the functions that read and change it. Alerts become
 * the returned outcome variants; focus and rendering are left out.
 */
module Friends {
  import opened Text
  import Assigner

  datatype Option<T> = None | Some(value: T)

  /** What adding one raw input to the roster did. */
  datatype AddOutcome =
    | EmptyInput              // nothing but whitespace was typed
    | Duplicate(name: string) // the trimmed name is already listed, up to case
    | Added(name: string)     // the trimmed name was appended

  /** A stored name: trimmed and not empty. */
  predicate IsName(s: string) {
    s != [] && IsTrimmed(s)
  }

  /** Some entry of `friends` equals `name` once both are lower-cased. */
  predicate HasCaseMatch(friends: seq<string>, name: string) {
    exists i :: 0 <= i < |friends| && ToLower(friends[i]) == ToLower(name)
  }

  /** No two entries are equal once lower-cased. */
  predicate NoCaseDuplicates(friends: seq<string>) {
    forall i, j :: 0 <= i < j < |friends| ==> ToLower(friends[i]) != ToLower(friends[j])
  }

  /** `emptyField`: the empty string is the one falsy string, and is refused. */
  function EmptyField(friend: string): (r: Option<string>)
    ensures r.None? <==> friend == []
    ensures r.Some? ==> r.value == friend
  {
    if friend != [] then Some(friend) else None
  }

  /** The decision `dataReading` takes on a raw input against the roster. */
  function Admission(friends: seq<string>, raw: string): AddOutcome {
    match EmptyField(Trim(raw))
    case None => EmptyInput
    case Some(name) => if HasCaseMatch(friends, name) then Duplicate(name) else Added(name)
  }

  /** The roster once `raw` has been offered to it. */
  function AfterAdd(friends: seq<string>, raw: string): seq<string> {
    match Admission(friends, raw)
    case Added(name) => friends + [name]
    case _ => friends
  }

  /** Each outcome of an add, in terms of the raw input: empty exactly for
      all-whitespace input, otherwise the trimmed input is rejected exactly
      when it matches an entry case-insensitively, and appended otherwise. */
  lemma AdmissionCases(friends: seq<string>, raw: string)
    ensures Admission(friends, raw) == EmptyInput <==> AllWhitespace(raw)
    ensures Admission(friends, raw).Duplicate? <==>
              !AllWhitespace(raw) && HasCaseMatch(friends, Trim(raw))
    ensures Admission(friends, raw).Added? <==>
              !AllWhitespace(raw) && !HasCaseMatch(friends, Trim(raw))
    ensures !Admission(friends, raw).EmptyInput? ==> Admission(friends, raw).name == Trim(raw)
  {
    TrimEmptyIff(raw);
  }

  /** An accepted add grows the roster by exactly the trimmed name at the end
      and keeps the earlier entries; a rejected one leaves it as it was. */
  lemma AfterAddShape(friends: seq<string>, raw: string)
    ensures Admission(friends, raw).Added? ==>
              AfterAdd(friends, raw) == friends + [Trim(raw)] &&
              |AfterAdd(friends, raw)| == |friends| + 1 &&
              AfterAdd(friends, raw)[..|friends|] == friends &&
              AfterAdd(friends, raw)[|friends|] == Trim(raw)
    ensures !Admission(friends, raw).Added? ==> AfterAdd(friends, raw) == friends
  {
    if Admission(friends, raw).Added? {
      var name := Admission(friends, raw).name;
      assert name == Trim(raw);
      assert AfterAdd(friends, raw) == friends + [name];
    }
  }

  /** Adding keeps every entry a trimmed non-empty name and keeps the roster
      free of case-insensitive duplicates. */
  lemma AddPreservesNoDuplicates(friends: seq<string>, raw: string)
    requires forall i :: 0 <= i < |friends| ==> IsName(friends[i])
    requires NoCaseDuplicates(friends)
    ensures forall i :: 0 <= i < |AfterAdd(friends, raw)| ==> IsName(AfterAdd(friends, raw)[i])
    ensures NoCaseDuplicates(AfterAdd(friends, raw))
  {
    var after := AfterAdd(friends, raw);
    if Admission(friends, raw).Added? {
      var name := Trim(raw);
      forall i, j | 0 <= i < j < |after| ensures ToLower(after[i]) != ToLower(after[j]) {
        if j == |friends| {
          assert after[i] == friends[i];
          assert !HasCaseMatch(friends, name);
        }
      }
    }
  }

  /** Offering the same text again right after it was accepted is refused as
      a duplicate. */
  lemma AddTwiceIsDuplicate(friends: seq<string>, raw: string)
    requires Admission(friends, raw).Added?
    ensures Admission(AfterAdd(friends, raw), raw) == Duplicate(Trim(raw))
  {
    var after := AfterAdd(friends, raw);
    assert ToLower(after[|friends|]) == ToLower(Trim(raw));
  }

  /** Blank input is refused as empty. */
  lemma BlankScenarios(friends: seq<string>)
    ensures Admission(friends, "") == EmptyInput
    ensures Admission(friends, "   ") == EmptyInput
  {
    BlankTrimScenario();
  }

  /** Surrounding blanks are dropped before a name is stored. */
  lemma TrimmedScenario()
    ensures Admission([], " Ana ") == Added("Ana")
    ensures AfterAdd([], " Ana ") == ["Ana"]
  {
    TrimScenario();
  }

  /** "Ana" then "ana": the second is a duplicate and the roster stays
      ["Ana"]. */
  lemma CaseScenario()
    ensures Admission(["Ana"], "ana") == Duplicate("ana")
    ensures AfterAdd(["Ana"], "ana") == ["Ana"]
  {
    AnaIsDuplicate();
  }

  lemma AnaIsDuplicate()
    ensures Admission(["Ana"], "ana") == Duplicate("ana")
  {
    AnaIsTrimmed();
    AnaIsListed();
  }

  lemma AnaIsTrimmed()
    ensures Trim("ana") == "ana"
  {
    TrimOfTrimmed("ana");
  }

  lemma AnaIsListed()
    ensures HasCaseMatch(["Ana"], "ana")
  {
    LowerScenario();
    assert ["Ana"][0] == "Ana";
  }

  class Roster {
    /** The participants, in the order they were added. */
    var friends: seq<string>

    ghost predicate Valid()
      reads this
    {
      (forall i :: 0 <= i < |friends| ==> IsName(friends[i])) && NoCaseDuplicates(friends)
    }

    /** The page starts with an empty list. */
    constructor ()
      ensures Valid() && friends == []
    {
      friends := [];
    }

    /** `restartGame`: forgets every participant. */
    method RestartGame()
      modifies this
      ensures Valid() && friends == []
    {
      friends := [];
    }

    /** `isFriendDuplicated`: a linear search comparing lower-cased forms,
        stopping at the first match. */
    method IsFriendDuplicated(newFriend: string) returns (duplicated: bool)
      ensures duplicated <==> HasCaseMatch(friends, newFriend)
    {
      var lowerCaseNewFriend := ToLower(newFriend);
      var i := 0;
      while i < |friends|
        invariant 0 <= i <= |friends|
        invariant forall k :: 0 <= k < i ==> ToLower(friends[k]) != lowerCaseNewFriend
      {
        if lowerCaseNewFriend == ToLower(friends[i]) {
          return true;
        }
        i := i + 1;
      }
      return false;
    }

    /** `saveFriend`: appends a name that has already passed both checks. */
    method SaveFriend(validatedFriend: string)
      requires Valid()
      requires IsName(validatedFriend) && !HasCaseMatch(friends, validatedFriend)
      modifies this
      ensures Valid()
      ensures friends == old(friends) + [validatedFriend]
    {
      friends := friends + [validatedFriend];
    }

    /** `addFriend` / `dataReading`: trims the input, refuses an empty result,
        then refuses a case-insensitive duplicate, and otherwise saves it. */
    method AddFriend(raw: string) returns (outcome: AddOutcome)
      requires Valid()
      modifies this
      ensures Valid()
      ensures outcome == Admission(old(friends), raw)
      ensures friends == AfterAdd(old(friends), raw)
    {
      AfterAddShape(friends, raw);
      var friend := Trim(raw);
      var validFriend := EmptyField(friend);
      if validFriend.None? {
        return EmptyInput;
      }
      var name := validFriend.value;
      var duplicated := IsFriendDuplicated(name);
      if duplicated {
        return Duplicate(name);
      }
      SaveFriend(name);
      return Added(name);
    }

    /** `drawFriend`: draws over the current roster, which it does not
        change. */
    method DrawFriend(js: seq<int>) returns (outcome: Assigner.DrawOutcome)
      requires |friends| >= Assigner.MinFriends ==> Assigner.ValidChoices(|friends|, js)
      ensures friends == old(friends)
      ensures outcome == Assigner.Assignment(friends, js)
    {
      outcome := Assigner.Draw(friends, js);
    }
  }
}

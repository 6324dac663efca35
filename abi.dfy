/** The ERC-721 compliance test over a parsed contract ABI, and the rule
    that turns an unverified contract source into an empty ABI.
    Both ingestion scripts carry the same copy of these two functions;
    they are defined once here. */
module Abi {

  /** One ABI entry, reduced to the two keys the compliance test reads:
      its "type" (called kind here) and its "name". */
  datatype Entry = Entry(kind: string, name: string)

  type Abi = seq<Entry>

  /** The eight function names an ERC-721 contract must declare. */
  const RequiredFunctions: seq<string> :=
    ["balanceOf", "ownerOf", "approve", "getApproved",
     "setApprovalForAll", "isApprovedForAll", "transferFrom", "safeTransferFrom"]

  /** The two event names an ERC-721 contract must declare. */
  const RequiredEvents: seq<string> := ["Transfer", "Approval"]

  /** The "result" string the explorer returns for a contract whose source is not verified. */
  const UnverifiedSource: string := "Contract source code not verified"

  /** `any(e["name"] == name for e in abi if e["type"] == kind)` */
  function AnyNamed(abi: Abi, kind: string, name: string): bool
  {
    if abi == [] then false
    else (abi[0].kind == kind && abi[0].name == name) || AnyNamed(abi[1..], kind, name)
  }

  /** `all(AnyNamed(abi, kind, n) for n in required)` */
  function AllPresent(required: seq<string>, abi: Abi, kind: string): bool
  {
    if required == [] then true
    else AnyNamed(abi, kind, required[0]) && AllPresent(required[1..], abi, kind)
  }

  /** `is_erc721_compliant`: every required function, then every required event. */
  function IsErc721Compliant(abi: Abi): bool
  {
    if AllPresent(RequiredFunctions, abi, "function") then
      AllPresent(RequiredEvents, abi, "event")
    else
      false
  }

  /** The declarative reading of the test: each required name occurs as an
      entry of the required kind. */
  ghost predicate Declares(abi: Abi, kind: string, required: seq<string>)
  {
    forall n :: n in required ==> Entry(kind, n) in abi
  }

  /** The rule of `get_abi`: the unverified marker yields the empty ABI,
      anything else is handed to the JSON parser (an oracle here). */
  function GetAbi(result: string, parse: string -> Abi): (abi: Abi)
    ensures result == UnverifiedSource ==> abi == []
    ensures result != UnverifiedSource ==> abi == parse(result)
  {
    if result == UnverifiedSource then [] else parse(result)
  }

  lemma {:induction false} AnyNamedIff(abi: Abi, kind: string, name: string)
    ensures AnyNamed(abi, kind, name) <==> Entry(kind, name) in abi
  {
    if abi != [] {
      AnyNamedIff(abi[1..], kind, name);
      assert abi == [abi[0]] + abi[1..];
    }
  }

  lemma {:induction false} AllPresentIff(required: seq<string>, abi: Abi, kind: string)
    ensures AllPresent(required, abi, kind) <==> Declares(abi, kind, required)
  {
    if required != [] {
      AnyNamedIff(abi, kind, required[0]);
      AllPresentIff(required[1..], abi, kind);
      assert required == [required[0]] + required[1..];
    }
  }

  /** Compliance holds exactly when all eight function names are names of
      "function" entries and both event names are names of "event" entries. */
  lemma CompliantIff(abi: Abi)
    ensures IsErc721Compliant(abi) <==>
              Declares(abi, "function", RequiredFunctions) && Declares(abi, "event", RequiredEvents)
  {
    AllPresentIff(RequiredFunctions, abi, "function");
    AllPresentIff(RequiredEvents, abi, "event");
  }

  /** The empty ABI is never compliant. */
  lemma EmptyNotCompliant()
    ensures !IsErc721Compliant([])
  {
  }

  /** An unverified contract is never classified as ERC-721, whatever the parser does. */
  lemma UnverifiedNotCompliant(parse: string -> Abi)
    ensures GetAbi(UnverifiedSource, parse) == []
    ensures !IsErc721Compliant(GetAbi(UnverifiedSource, parse))
  {
  }

  /** Entries of kind "function" never satisfy the event requirement: an ABI
      without any "event" entry is not compliant, even if it declares a
      function named "Transfer". */
  lemma NoEventsNotCompliant(abi: Abi)
    requires forall i :: 0 <= i < |abi| ==> abi[i].kind != "event"
    ensures !IsErc721Compliant(abi)
  {
    CompliantIff(abi);
    assert "Transfer" in RequiredEvents;
  }

  /** An entry whose kind is neither "function" nor "event", inserted
      anywhere, does not change the verdict. */
  lemma OtherKindsIrrelevant(front: Abi, e: Entry, back: Abi)
    requires e.kind != "function" && e.kind != "event"
    ensures IsErc721Compliant(front + [e] + back) == IsErc721Compliant(front + back)
  {
    var withE, without := front + [e] + back, front + back;
    CompliantIff(withE);
    CompliantIff(without);
    forall k, n | (k == "function" || k == "event")
      ensures Entry(k, n) in withE <==> Entry(k, n) in without
    {
      assert Entry(k, n) != e;
      calc {
        Entry(k, n) in withE;
      <==> Entry(k, n) in front || Entry(k, n) in [e] || Entry(k, n) in back;
      <==> Entry(k, n) in front || Entry(k, n) in back;
      <==> Entry(k, n) in without;
      }
    }
  }

  /** Adding entries (anywhere, in any order) to a compliant ABI keeps it compliant. */
  lemma CompliantMonotone(abi: Abi, bigger: Abi)
    requires forall e :: e in abi ==> e in bigger
    requires IsErc721Compliant(abi)
    ensures IsErc721Compliant(bigger)
  {
    CompliantIff(abi);
    CompliantIff(bigger);
  }

  /** The verdict does not depend on the order of the entries. */
  lemma CompliantOrderIndependent(abi: Abi, reordered: Abi)
    requires multiset(abi) == multiset(reordered)
    ensures IsErc721Compliant(abi) == IsErc721Compliant(reordered)
  {
    forall e ensures e in abi <==> e in reordered {
      assert e in abi <==> e in multiset(abi);
      assert e in reordered <==> e in multiset(reordered);
    }
    if IsErc721Compliant(abi) {
      CompliantMonotone(abi, reordered);
    }
    if IsErc721Compliant(reordered) {
      CompliantMonotone(reordered, abi);
    }
  }

  /** The smallest ABI that passes: the eight functions and the two events. */
  function MinimalErc721Abi(): Abi
  {
    seq(|RequiredFunctions|, i requires 0 <= i < |RequiredFunctions| => Entry("function", RequiredFunctions[i])) +
    seq(|RequiredEvents|, i requires 0 <= i < |RequiredEvents| => Entry("event", RequiredEvents[i]))
  }

  lemma MinimalAbiCompliant()
    ensures IsErc721Compliant(MinimalErc721Abi())
    ensures |MinimalErc721Abi()| == 10
  {
    var abi := MinimalErc721Abi();
    CompliantIff(abi);
    forall n | n in RequiredFunctions ensures Entry("function", n) in abi {
      var i :| 0 <= i < |RequiredFunctions| && RequiredFunctions[i] == n;
      assert abi[i] == Entry("function", n);
    }
    forall n | n in RequiredEvents ensures Entry("event", n) in abi {
      var i :| 0 <= i < |RequiredEvents| && RequiredEvents[i] == n;
      assert abi[|RequiredFunctions| + i] == Entry("event", n);
    }
  }
}

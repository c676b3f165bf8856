/** The optional comma-list codec: an absent list travels as an absent
    string and back; a present one goes through the required codec. */
module OptionSeparateByComma {
  import opened Wrappers
  import opened SeparateByComma

  /** Encoding: an absent list stays absent, a present one is joined into a
      string that splits back to it when it is non-empty and comma-free. */
  function OptJoin(v: Option<seq<string>>): (r: Option<string>)
    ensures r.None? <==> v.None?
    ensures r.Some? && |v.value| >= 1 && CommaFree(v.value) ==> Split(r.value) == v.value
  {
    match v
    case None => None
    case Some(xs) =>
      assert |xs| >= 1 && CommaFree(xs) ==> Split(Join(xs)) == xs by {
        if |xs| >= 1 && CommaFree(xs) { SplitJoin(xs); }
      }
      Some(Join(xs))
  }

  /** Decoding: an absent string stays absent, a present one is split into
      its non-empty, comma-free list of segments that joins back to it. */
  function OptSplit(v: Option<string>): (r: Option<seq<string>>)
    ensures r.None? <==> v.None?
    ensures r.Some? ==> |r.value| >= 1 && CommaFree(r.value) && Join(r.value) == v.value
  {
    match v
    case None => None
    case Some(s) =>
      SplitCommaFree(s);
      JoinSplit(s);
      Some(Split(s))
  }

  /** Decoding through the host: an extraction error passes through
      unchanged, an extracted optional string is decoded by OptSplit. */
  function Deserialize<E>(raw: Result<Option<string>, E>): (r: Result<Option<seq<string>>, E>)
    ensures r.Failure? <==> raw.Failure?
    ensures raw.Failure? ==> r.error == raw.error
    ensures r.Success? ==> (r.value.None? <==> raw.value.None?)
    ensures r.Success? && r.value.Some? ==>
      |r.value.value| >= 1 && CommaFree(r.value.value) && Join(r.value.value) == raw.value.value
  {
    match raw
    case Failure(e) => Failure(e)
    case Success(o) => Success(OptSplit(o))
  }

  /** A present value is coded exactly as the required codec codes it. */
  lemma AgreesWithRequired(xs: seq<string>, s: string)
    ensures OptJoin(Some(xs)) == Some(Join(xs))
    ensures OptSplit(Some(s)) == Some(Split(s))
  {
  }

  /** Absence is never confused with an empty list or an empty string. */
  lemma AbsenceKept()
    ensures OptSplit(None) == None && OptJoin(None) == None
    ensures OptSplit(Some("")) == Some([""]) && OptJoin(Some([])) == Some("")
  {
  }

  /** Decoding then encoding reproduces every optional string. */
  lemma JoinSplitOpt(v: Option<string>)
    ensures OptJoin(OptSplit(v)) == v
  {
  }

  /** Encoding then decoding reproduces an absent list and every present
      non-empty list whose elements contain no ','. */
  lemma SplitJoinOpt(v: Option<seq<string>>)
    requires v.Some? ==> |v.value| >= 1 && CommaFree(v.value)
    ensures OptSplit(OptJoin(v)) == v
  {
  }

  /** The "names" field of the record in the crate's test module
      test_option_separate_by_comma: the string
      "aa,いい,uu" decodes to three names, and null decodes to absent. */
  lemma DeserializeExamples<E>(present: Result<Option<string>, E>, absent: Result<Option<string>, E>)
    requires present == Success(Some("aa,いい,uu")) && absent == Success(None)
    ensures Deserialize(present) == Success(Some(["aa", "いい", "uu"]))
    ensures Deserialize(absent) == Success(None)
  {
    SplitExamples();
  }
}

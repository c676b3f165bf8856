/** The required comma-list codec: a list of strings travels as one string
    whose elements are joined by ','. Decoding splits on every ',' and keeps
    every segment, empty ones included; there is no escaping. */
module SeparateByComma {
  import opened Wrappers

  const Comma: char := ','

  /** Number of ',' characters in s. */
  function Commas(s: string): nat
  {
    if s == [] then 0 else (if s[0] == Comma then 1 else 0) + Commas(s[1..])
  }

  /** No element of xs contains ','. */
  predicate CommaFree(xs: seq<string>)
  {
    forall i :: 0 <= i < |xs| ==> Comma !in xs[i]
  }

  /** Total number of ',' characters across the elements of xs. */
  function CommasIn(xs: seq<string>): nat
  {
    if xs == [] then 0 else Commas(xs[0]) + CommasIn(xs[1..])
  }

  /** Encoding: the elements of xs joined with ',' between neighbours. */
  function Join(xs: seq<string>): string
  {
    if |xs| == 0 then ""
    else if |xs| == 1 then xs[0]
    else xs[0] + [Comma] + Join(xs[1..])
  }

  /** Decoding: the segments of s between the ',' characters, in order. A
      string with n commas has n + 1 segments, so "" gives [""]. */
  function Split(s: string): (r: seq<string>)
    ensures |r| == Commas(s) + 1
  {
    if s == [] then [""]
    else if s[0] == Comma then [""] + Split(s[1..])
    else
      var t := Split(s[1..]);
      [[s[0]] + t[0]] + t[1..]
  }

  /** Decoding through the host: an extraction error passes through
      unchanged, an extracted string is split. */
  function Deserialize<E>(raw: Result<string, E>): (r: Result<seq<string>, E>)
    ensures r.Failure? <==> raw.Failure?
    ensures raw.Failure? ==> r.error == raw.error
    ensures r.Success? ==> |r.value| >= 1 && CommaFree(r.value) && Join(r.value) == raw.value
  {
    match raw
    case Failure(e) => Failure(e)
    case Success(s) =>
      SplitCommaFree(s);
      JoinSplit(s);
      Success(Split(s))
  }

  // ---------------------------------------------------------------------
  // Segments

  /** No segment produced by Split contains ','. */
  lemma {:induction false} SplitCommaFree(s: string)
    ensures CommaFree(Split(s))
  {
    if s == [] {
    } else if s[0] == Comma {
      SplitCommaFree(s[1..]);
      assert Split(s)[1..] == Split(s[1..]);
    } else {
      SplitCommaFree(s[1..]);
      var t := Split(s[1..]);
      assert Split(s) == [[s[0]] + t[0]] + t[1..];
      forall i | 0 <= i < |Split(s)|
        ensures Comma !in Split(s)[i]
      {
        if i > 0 {
          assert Split(s)[i] == t[i];
        }
      }
    }
  }

  // ---------------------------------------------------------------------
  // Split then join

  /** Joining x in front of a non-empty list puts x and ',' in front. */
  lemma JoinCons(x: string, xs: seq<string>)
    requires |xs| >= 1
    ensures Join([x] + xs) == x + [Comma] + Join(xs)
  {
  }

  /** Putting a character in front of the first element puts it in front of
      the joined string. */
  lemma JoinPrepend(c: char, xs: seq<string>)
    requires |xs| >= 1
    ensures Join([[c] + xs[0]] + xs[1..]) == [c] + Join(xs)
  {
  }

  /** Splitting and joining again reproduces every string. */
  lemma {:induction false} JoinSplit(s: string)
    ensures Join(Split(s)) == s
  {
    if s == [] {
    } else if s[0] == Comma {
      JoinSplit(s[1..]);
      JoinCons("", Split(s[1..]));
      assert s == [s[0]] + s[1..];
    } else {
      JoinSplit(s[1..]);
      JoinPrepend(s[0], Split(s[1..]));
      assert s == [s[0]] + s[1..];
    }
  }

  // ---------------------------------------------------------------------
  // Join then split

  /** A comma-free prefix extends the first segment and leaves the others. */
  lemma {:induction false} SplitCommaFreePrefix(x: string, rest: string)
    requires Comma !in x
    ensures Split(x + rest) == [x + Split(rest)[0]] + Split(rest)[1..]
  {
    var t := Split(rest);
    if x == [] {
      assert x + rest == rest;
      assert x + t[0] == t[0];
      assert [t[0]] + t[1..] == t;
    } else {
      assert (x + rest)[1..] == x[1..] + rest;
      assert x[0] in x;
      assert (x + rest)[0] == x[0] != Comma;
      SplitCommaFreePrefix(x[1..], rest);
      var u := Split(x[1..] + rest);
      assert Split(x + rest) == [[x[0]] + u[0]] + u[1..];
      assert [x[0]] + (x[1..] + t[0]) == x + t[0];
    }
  }

  /** A comma-free element followed by ',' becomes one whole segment. */
  lemma SplitElementThenComma(x: string, rest: string)
    requires Comma !in x
    ensures Split(x + [Comma] + rest) == [x] + Split(rest)
  {
    SplitCommaFreePrefix(x, [Comma] + rest);
    assert x + [Comma] + rest == x + ([Comma] + rest);
    assert ([Comma] + rest)[1..] == rest;
    assert Split([Comma] + rest) == [""] + Split(rest);
    assert x + "" == x;
  }

  /** Joining and splitting again gives back every non-empty list whose
      elements contain no ','. */
  lemma {:induction false} SplitJoin(xs: seq<string>)
    requires |xs| >= 1 && CommaFree(xs)
    ensures Split(Join(xs)) == xs
  {
    assert Comma !in xs[0];
    if |xs| == 1 {
      SplitCommaFreePrefix(xs[0], "");
      assert xs[0] + "" == xs[0];
    } else {
      assert CommaFree(xs[1..]) by {
        forall i | 0 <= i < |xs[1..]| ensures Comma !in xs[1..][i] {
          assert xs[1..][i] == xs[i + 1];
        }
      }
      SplitJoin(xs[1..]);
      SplitElementThenComma(xs[0], Join(xs[1..]));
      assert [xs[0]] + xs[1..] == xs;
    }
  }

  /** Split is the one decoding that is never empty, has comma-free
      segments and joins back to its input. */
  lemma SplitCharacterized(s: string, r: seq<string>)
    ensures r == Split(s) <==> (|r| >= 1 && CommaFree(r) && Join(r) == s)
  {
    if r == Split(s) {
      SplitCommaFree(s);
      JoinSplit(s);
    }
    if |r| >= 1 && CommaFree(r) && Join(r) == s {
      SplitJoin(r);
    }
  }

  /** Joining n >= 1 elements adds exactly n - 1 commas to those the
      elements already hold. */
  lemma {:induction false} JoinCommaCount(xs: seq<string>)
    requires |xs| >= 1
    ensures Commas(Join(xs)) == CommasIn(xs) + |xs| - 1
  {
    if |xs| > 1 {
      JoinCommaCount(xs[1..]);
      CommasAppend(xs[0], [Comma]);
      CommasAppend(xs[0] + [Comma], Join(xs[1..]));
    } else {
      assert xs[1..] == [];
    }
  }

  lemma {:induction false} CommasAppend(a: string, b: string)
    ensures Commas(a + b) == Commas(a) + Commas(b)
  {
    if a != [] {
      assert (a + b)[1..] == a[1..] + b;
      CommasAppend(a[1..], b);
    } else {
      assert a + b == b;
    }
  }

  // ---------------------------------------------------------------------
  // Where join then split does not round-trip

  /** The empty list joins to "", which splits to one empty segment. */
  lemma EmptyListDoesNotRoundTrip()
    ensures Join([]) == "" && Split(Join([])) == [""]
  {
  }

  /** An element holding ',' is indistinguishable from two elements. */
  lemma EmbeddedCommaDoesNotRoundTrip()
    ensures Split(Join(["a,b"])) == ["a", "b"]
  {
    assert Join(["a,b"]) == "a" + [Comma] + "b";
    SplitElementThenComma("a", "b");
    SplitJoin(["b"]);
  }

  // ---------------------------------------------------------------------
  // Examples

  lemma JoinExamples()
    ensures Join([]) == ""
    ensures Join(["a", "b"]) == "a,b"
    ensures Join(["aa", "いい", "uu"]) == "aa,いい,uu"
  {
  }

  lemma SplitExamples()
    ensures Split("") == [""]
    ensures Split("a,,b") == ["a", "", "b"]
    ensures Split("aa,いい,uu") == ["aa", "いい", "uu"]
  {
    SplitJoin(["a", "", "b"]);
    assert Join(["a", "", "b"]) == "a,,b";
    SplitJoin(["aa", "いい", "uu"]);
    assert Join(["aa", "いい", "uu"]) == "aa,いい,uu";
  }

  /** A successfully extracted field decodes to its segments. */
  lemma DeserializeExample<E>(raw: Result<string, E>)
    requires raw == Success("aa,いい,uu")
    ensures Deserialize(raw) == Success(["aa", "いい", "uu"])
  {
    SplitExamples();
  }
}

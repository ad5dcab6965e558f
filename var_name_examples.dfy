/** The transformations listed at the top of `VarNameCleaner.cpp`, traced
    through `makeCleanName` as written in a cleaner with no builtins and an
    empty blacklist (the corrected search gives the same names here: it
    differs only on a name without a stem that is already recorded, and
    none of these is), and the two declarations that the search as written
    names alike; last, a use of an earlier declaration across a later one. */
module VarNameExamples {
  import opened Wrappers
  import opened Ascii
  import opened VarNameCleaning

  lemma CandidateTexts()
    ensures Candidate("a", 1) == "a_1" && Candidate("a", 2) == "a_2" && Candidate("a", 3) == "a_3"
  {
    assert NatToDecimal(1) == "1" && NatToDecimal(2) == "2" && NatToDecimal(3) == "3";
  }

  /** `a, a_1` keep their names in a cleaner that has seen nothing yet. */
  method CleanTwo(c: VarNameCleaner) returns (out: seq<string>)
    requires c.Valid() && c.builtins == {} && c.blacklist == [] && c.usedNames == map[]
    modifies c
    ensures c.Valid() && c.builtins == {} && c.blacklist == []
    ensures out == ["a", "a_1"]
    ensures c.usedNames == map["a" := "a", "a_1" := "a_1"]
  {
    StrippedExamples();
    ShortStemExamples();
    CandidateTexts();
    var r1 := c.MakeCleanNameAsWritten("a");
    assert r1 == None;
    assert c.usedNames == map["a" := "a"];
    FirstFreeAt(c.usedNames, c.blacklist, "a", 1);
    var r2 := c.MakeCleanNameAsWritten("a_1");
    assert r2 == Some("a_1");
    out := [r1.GetOr("a"), r2.GetOr("a_1")];
  }

  /** `a, a_1, a_1_2` become `a, a_1, a_2` in a cleaner that has seen
      nothing yet. */
  method CleanThree(c: VarNameCleaner) returns (out: seq<string>)
    requires c.Valid() && c.builtins == {} && c.blacklist == [] && c.usedNames == map[]
    modifies c
    ensures c.Valid() && c.builtins == {} && c.blacklist == []
    ensures out == ["a", "a_1", "a_2"]
    ensures c.usedNames == map["a" := "a", "a_1" := "a_1", "a_2" := "a_2", "a_1_2" := "a_2"]
  {
    var first := CleanTwo(c);
    StrippedExamples();
    CandidateTexts();
    FirstFreeAt(c.usedNames, c.blacklist, "a", 2);
    var r3 := c.MakeCleanNameAsWritten("a_1_2");
    assert r3 == Some("a_2");
    out := first + [r3.GetOr("a_1_2")];
  }

  /** The first listed transformation. */
  method RenumberExample() returns (out: seq<string>)
    ensures out == ["a", "a_1", "a_2"]
  {
    var c := new VarNameCleaner({}, []);
    out := CleanThree(c);
  }

  /** The second: `a, a_1, a_1_2, a_2` become `a, a_1, a_2, a_3`, since
      `a_2` now names the third variable. */
  method RenumberFurtherExample() returns (out: seq<string>)
    ensures out == ["a", "a_1", "a_2", "a_3"]
  {
    ShortStemExamples();
    CandidateTexts();
    var c := new VarNameCleaner({}, []);
    var first := CleanThree(c);
    FirstFreeAt(c.usedNames, c.blacklist, "a", 3);
    var r4 := c.MakeCleanNameAsWritten("a_2");
    out := first + [r4.GetOr("a_2")];
  }

  /** `a_15, a_17` become `a, a_1`: the second stem is taken, and the first
      free candidate is `a_1`. */
  method TakenStemExample() returns (out: seq<string>)
    ensures out == ["a", "a_1"]
  {
    StrippedExamples();
    ShortStemExamples();
    CandidateTexts();
    var c := new VarNameCleaner({}, []);
    var r1 := c.MakeCleanNameAsWritten("a_15");
    FirstFreeAt(c.usedNames, c.blacklist, "a", 1);
    var r2 := c.MakeCleanNameAsWritten("a_17");
    out := [r1.GetOr("a_15"), r2.GetOr("a_17")];
  }

  /** `abi_decode_256` becomes `abi_decode`. */
  method StemExample() returns (out: string)
    ensures out == "abi_decode"
  {
    StrippedExamples();
    ShortStemExamples();
    var c := new VarNameCleaner({}, []);
    var r := c.MakeCleanNameAsWritten("abi_decode_256");
    out := r.GetOr("abi_decode_256");
  }

  /** As written, `a_1` is cleaned to `a` and then a declaration of `a`
      keeps its name: two variables are called `a`. */
  method ClashAsWritten() returns (first: string, second: string)
    ensures first == "a" && second == "a"
  {
    StrippedExamples();
    ShortStemExamples();
    var c := new VarNameCleaner({}, []);
    var r1 := c.MakeCleanNameAsWritten("a_1");
    var r2 := c.MakeCleanNameAsWritten("a");
    first, second := r1.GetOr("a_1"), r2.GetOr("a");
  }

  /** Once `a` and `a_1` are recorded, the first free candidate for `a` is
      `a_2`. */
  lemma FreeAfterA1()
    ensures forall n :: FirstFreeCandidate(map["a" := "a", "a_1" := "a"], [], "a", n) <==> n == "a_2"
  {
    CandidateTexts();
    FirstFreeAt(map["a" := "a", "a_1" := "a"], [], "a", 2);
  }

  /** With the corrected search the second declaration becomes `a_2`
      (`a_1` is recorded as the first one's old name). */
  method ClashCorrected() returns (first: string, second: string)
    ensures first == "a" && second == "a_2"
  {
    StrippedExamples();
    ShortStemExamples();
    var c := new VarNameCleaner({}, []);
    var r1 := c.MakeCleanName("a_1");
    assert c.usedNames == map["a" := "a", "a_1" := "a"];
    FreeAfterA1();
    var r2 := c.MakeCleanName("a");
    first, second := r1.GetOr("a_1"), r2.GetOr("a");
  }

  /** `let a_1 := ...` followed by `let b_1 := a_1`: visiting the second
      declaration leaves the first one's new name in place, so the use of
      `a_1` in it is renamed like the declaration, and the two names stay
      apart. This holds from any cleaner state. */
  method FollowThroughExample(c: VarNameCleaner) returns (a: string, b: string, use: string)
    requires c.Valid() && c.blacklist == []
    modifies c
    ensures use == a && a != b
  {
    ShortStemExamples();
    var first, steps1, results1 := c.VisitVariableDeclarationAsWritten(["a_1"]);
    var second, steps2, results2 := c.VisitVariableDeclarationAsWritten(["b_1"]);
    use := c.VisitIdentifier("a_1");
    a, b := first[0], second[0];
  }

  /** Once `a` is recorded, the first free candidate for `a` is `a_1`. */
  lemma FreeAfterA()
    ensures forall n :: FirstFreeCandidate(map["a" := "a"], [], "a", n) <==> n == "a_1"
  {
    CandidateTexts();
    FirstFreeAt(map["a" := "a"], [], "a", 1);
  }

  /** Once `a` and `a_1` are recorded under their own names, the first free
      candidate for `a` is `a_2`. */
  lemma FreeAfterA1Kept()
    ensures forall n :: FirstFreeCandidate(map["a" := "a", "a_1" := "a_1"], [], "a", n) <==> n == "a_2"
  {
    CandidateTexts();
    FirstFreeAt(map["a" := "a", "a_1" := "a_1"], [], "a", 2);
  }

  /** The trace of `let a, a_1, a_1_2` from an empty record, as written. */
  lemma DeclarationTrace(renamed: seq<string>, steps: seq<map<string, string>>, results: seq<Option<string>>)
    requires Traced(false, [], {}, ["a", "a_1", "a_1_2"], renamed, steps, results)
    requires |renamed| == 3 && steps[0] == map[]
    ensures renamed == ["a", "a_1", "a_2"]
    ensures steps[3] == map["a" := "a", "a_1" := "a_1", "a_2" := "a_2", "a_1_2" := "a_2"]
  {
    var names := ["a", "a_1", "a_1_2"];
    StrippedExamples();
    ShortStemExamples();
    assert Cleaned(false, steps[0], [], {}, names[0], results[0]);
    assert results[0] == None;
    assert steps[1] == map["a" := "a"];
    FreeAfterA();
    assert Cleaned(false, steps[1], [], {}, names[1], results[1]);
    assert results[1] == Some("a_1");
    assert steps[2] == map["a" := "a", "a_1" := "a_1"];
    FreeAfterA1Kept();
    assert Cleaned(false, steps[2], [], {}, names[2], results[2]);
    assert results[2] == Some("a_2");
  }

  /** The first documented transformation as one declaration
      `let a, a_1, a_1_2`, through the visitor as written: the names become
      `a, a_1, a_2`, and the record holds exactly the four names. */
  method DeclarationExample(c: VarNameCleaner) returns (out: seq<string>)
    requires c.Valid() && c.builtins == {} && c.blacklist == [] && c.usedNames == map[]
    modifies c
    ensures out == ["a", "a_1", "a_2"]
    ensures c.usedNames == map["a" := "a", "a_1" := "a_1", "a_2" := "a_2", "a_1_2" := "a_2"]
  {
    ghost var steps, results;
    out, steps, results := c.VisitVariableDeclarationAsWritten(["a", "a_1", "a_1_2"]);
    DeclarationTrace(out, steps, results);
  }

  /** The trace of `let a_1, a` from an empty record, as written: both
      variables are called `a`. */
  lemma ClashTraceAsWritten(renamed: seq<string>, steps: seq<map<string, string>>, results: seq<Option<string>>)
    requires Traced(false, [], {}, ["a_1", "a"], renamed, steps, results)
    requires |renamed| == 2 && steps[0] == map[]
    ensures renamed == ["a", "a"]
  {
    var names := ["a_1", "a"];
    StrippedExamples();
    ShortStemExamples();
    assert Cleaned(false, steps[0], [], {}, names[0], results[0]);
    assert results[0] == Some("a");
    assert Cleaned(false, steps[1], [], {}, names[1], results[1]);
    assert results[1] == None;
  }

  /** The same declaration with the corrected search: the second variable
      is named `a_2`. */
  lemma ClashTraceCorrected(renamed: seq<string>, steps: seq<map<string, string>>, results: seq<Option<string>>)
    requires Traced(true, [], {}, ["a_1", "a"], renamed, steps, results)
    requires |renamed| == 2 && steps[0] == map[]
    ensures renamed == ["a", "a_2"]
  {
    var names := ["a_1", "a"];
    StrippedExamples();
    ShortStemExamples();
    CandidateTexts();
    assert Cleaned(true, steps[0], [], {}, names[0], results[0]);
    assert results[0] == Some("a");
    assert steps[1] == map["a" := "a", "a_1" := "a"];
    FreeAfterA1();
    assert Cleaned(true, steps[1], [], {}, names[1], results[1]);
    assert results[1] == Some("a_2");
  }

  /** The declaration `let a_1, a` through both visitors. */
  method DeclarationClashExample(c: VarNameCleaner, d: VarNameCleaner) returns (asWritten: seq<string>, corrected: seq<string>)
    requires c.Valid() && c.builtins == {} && c.blacklist == [] && c.usedNames == map[]
    requires d.Valid() && d.builtins == {} && d.blacklist == [] && d.usedNames == map[]
    requires c != d
    modifies c, d
    ensures asWritten == ["a", "a"] && corrected == ["a", "a_2"]
  {
    ghost var steps, results;
    asWritten, steps, results := c.VisitVariableDeclarationAsWritten(["a_1", "a"]);
    ClashTraceAsWritten(asWritten, steps, results);
    corrected, steps, results := d.VisitVariableDeclaration(["a_1", "a"]);
    ClashTraceCorrected(corrected, steps, results);
  }
}

/** The Yul optimiser step that gives variables readable names
    (`yul::VarNameCleaner`): a name that ends in numeric suffixes such as
    `_1_2` is cut back to its stem, and a stem that is taken gets the
    smallest free suffix `_1`, `_2`, ... instead. `usedNames` maps every
    name seen to the name it now has, and keeps every name handed out
    from being handed out again. */
module VarNameCleaning {
  import opened Ascii
  import opened Wrappers
  import opened Lexing
  import opened StringOrder

  // ---------------------------------------------------------------------
  // The suffix `(_+[0-9]+)+$` and the stem it leaves.
  // ---------------------------------------------------------------------

  predicate SuffixChar(c: char) {
    c == '_' || IsDigit(c)
  }

  /** A text of underscores and digits that starts with an underscore and
      ends in a digit. */
  predicate IsSuffix(t: string) {
    && |t| > 0 && t[0] == '_' && IsDigit(t[|t| - 1])
    && forall k :: 0 <= k < |t| ==> SuffixChar(t[k])
  }

  /** The end of the run of underscores from `i`. */
  function Underscores(t: string, i: nat): (r: nat)
    requires i <= |t|
    ensures i <= r <= |t| && (r < |t| ==> t[r] != '_')
    ensures forall k :: i <= k < r ==> t[k] == '_'
    decreases |t| - i
  {
    if i < |t| && t[i] == '_' then Underscores(t, i + 1) else i
  }

  /** The end of the run of digits from `i`. */
  function Digits(t: string, i: nat): (r: nat)
    requires i <= |t|
    ensures i <= r <= |t| && (r < |t| ==> !IsDigit(t[r]))
    ensures forall k :: i <= k < r ==> IsDigit(t[k])
    decreases |t| - i
  {
    if i < |t| && IsDigit(t[i]) then Digits(t, i + 1) else i
  }

  /** The language of `(_+[0-9]+)+`: a group of underscores and then digits,
      followed by nothing or by more groups. Since each group ends in a digit
      and the next one starts with an underscore, the groups are the maximal
      runs. */
  predicate Groups(t: string)
    decreases |t|
  {
    var u := Underscores(t, 0);
    var d := Digits(t, u);
    0 < u < d && (d == |t| || Groups(t[d..]))
  }

  /** Groups are suffix texts. */
  lemma {:induction false} GroupsAreSuffixes(t: string)
    requires Groups(t)
    ensures IsSuffix(t)
    decreases |t|
  {
    var d := Digits(t, Underscores(t, 0));
    if d < |t| {
      var rest := t[d..];
      GroupsAreSuffixes(rest);
      forall k | d <= k < |t| ensures SuffixChar(t[k]) {
        assert t[k] == rest[k - d];
      }
      assert t[|t| - 1] == rest[|rest| - 1];
    }
  }

  /** Suffix texts split into groups. */
  lemma {:induction false} SuffixesAreGroups(t: string)
    requires IsSuffix(t)
    ensures Groups(t)
    decreases |t|
  {
    var u := Underscores(t, 0);
    assert u < |t| && SuffixChar(t[u]);
    var d := Digits(t, u);
    if d < |t| {
      var rest := t[d..];
      assert t[d] == '_' by { assert SuffixChar(t[d]); }
      forall k | 0 <= k < |rest| ensures SuffixChar(rest[k]) {
        assert rest[k] == t[d + k];
      }
      assert rest[|rest| - 1] == t[|t| - 1];
      SuffixesAreGroups(rest);
    }
  }

  /** The start of the trailing run of suffix characters before `j`. */
  function SuffixRunStart(s: string, j: nat): (r: nat)
    requires j <= |s|
    ensures r <= j && (r > 0 ==> !SuffixChar(s[r - 1]))
    ensures forall k :: r <= k < j ==> SuffixChar(s[k])
    decreases j
  {
    if j > 0 && SuffixChar(s[j - 1]) then SuffixRunStart(s, j - 1) else j
  }

  /** Where `std::regex_search` finds the suffix: at the first underscore of
      the trailing run of underscores and digits, provided the name ends in
      a digit. */
  function SuffixStart(s: string): (r: Option<nat>)
    ensures r.Some? ==> r.value < |s|
  {
    if s == [] || !IsDigit(s[|s| - 1]) then None
    else
      var p := FindChar(s, SuffixRunStart(s, |s|), '_');
      if p < |s| then Some(p) else None
  }

  /** `regex_search` reports the leftmost match, and a match of the
      anchored suffix pattern is a tail that is a suffix text. */
  lemma SuffixStartLeftmost(s: string)
    ensures SuffixStart(s).Some? ==>
      var p := SuffixStart(s).value;
      IsSuffix(s[p..]) && forall p' :: 0 <= p' < p ==> !IsSuffix(s[p'..])
    ensures SuffixStart(s).None? ==> forall p :: 0 <= p <= |s| ==> !IsSuffix(s[p..])
  {
    if s != [] && IsDigit(s[|s| - 1]) {
      var q := SuffixRunStart(s, |s|);
      var f := FindChar(s, q, '_');
      forall p | 0 <= p < f ensures !IsSuffix(s[p..]) {
        if p < q {
          assert s[p..][q - 1 - p] == s[q - 1];
        } else {
          assert s[p..][0] == s[p];
        }
      }
      if f < |s| {
        assert forall k :: 0 <= k < |s[f..]| ==> s[f..][k] == s[f + k];
      }
    }
  }

  /** `stripSuffix`: the text before the leftmost suffix, when there is
      such text and it is not on the blacklist. */
  function Stripped(name: string, blacklist: seq<string>): (r: Option<string>)
    ensures r.Some? ==> 0 < |r.value| < |name| && r.value == name[..|r.value|]
  {
    match SuffixStart(name)
    case None => None
    case Some(p) => if p > 0 && name[..p] !in blacklist then Some(name[..p]) else None
  }

  /** What the stem is: a non-empty, non-blacklisted prefix that the leftmost
      suffix follows; and when there is none, every leftmost suffix starts
      the name or follows a blacklisted prefix. */
  lemma StrippedSpec(name: string, blacklist: seq<string>)
    ensures var r := Stripped(name, blacklist);
      r.Some? ==>
        && IsSuffix(name[|r.value|..]) && r.value !in blacklist
        && forall p :: 0 <= p < |r.value| ==> !IsSuffix(name[p..])
    ensures Stripped(name, blacklist).None? ==>
      forall p :: 0 <= p <= |name| && IsSuffix(name[p..]) && (forall p' :: 0 <= p' < p ==> !IsSuffix(name[p'..]))
        ==> p == 0 || name[..p] in blacklist
  {
    SuffixStartLeftmost(name);
    if SuffixStart(name).Some? {
      var p := SuffixStart(name).value;
      forall p'' | 0 <= p'' <= |name| && IsSuffix(name[p''..]) && (forall p' :: 0 <= p' < p'' ==> !IsSuffix(name[p'..]))
        ensures p'' == p
      {
      }
    }
  }

  /** The `i`-th candidate for a taken stem. */
  function Candidate(stem: string, i: nat): string {
    stem + "_" + NatToDecimal(i)
  }

  lemma CandidateInjective(stem: string, i: nat, j: nat)
    requires Candidate(stem, i) == Candidate(stem, j)
    ensures i == j
  {
    var n := |stem| + 1;
    assert Candidate(stem, i)[n..] == NatToDecimal(i);
    assert Candidate(stem, j)[n..] == NatToDecimal(j);
    NatToDecimalInjective(i, j);
  }

  /** A name a new candidate may not take: one recorded or blacklisted. */
  predicate Taken(used: map<string, string>, blacklist: seq<string>, n: string) {
    n in used || n in blacklist
  }

  /** `n` is the first of the candidates for `stem` that is not taken. */
  ghost predicate FirstFreeCandidate(used: map<string, string>, blacklist: seq<string>, stem: string, n: string) {
    exists i :: 1 <= i && n == Candidate(stem, i) && !Taken(used, blacklist, n)
      && forall k :: 1 <= k < i ==> Taken(used, blacklist, Candidate(stem, k))
  }

  /** The first free candidate is determined by what is taken. */
  lemma FirstFreeCandidateUnique(used: map<string, string>, blacklist: seq<string>, stem: string, n: string, m: string)
    requires FirstFreeCandidate(used, blacklist, stem, n) && FirstFreeCandidate(used, blacklist, stem, m)
    ensures n == m
  {
    var i :| 1 <= i && n == Candidate(stem, i) && !Taken(used, blacklist, n)
      && forall k :: 1 <= k < i ==> Taken(used, blacklist, Candidate(stem, k));
    var j :| 1 <= j && m == Candidate(stem, j) && !Taken(used, blacklist, m)
      && forall k :: 1 <= k < j ==> Taken(used, blacklist, Candidate(stem, k));
  }

  /** A candidate that is free after taken ones is the first free one. */
  lemma FirstFreeAt(used: map<string, string>, blacklist: seq<string>, stem: string, i: nat)
    requires 1 <= i && !Taken(used, blacklist, Candidate(stem, i))
    requires forall k :: 1 <= k < i ==> Taken(used, blacklist, Candidate(stem, k))
    ensures forall n :: FirstFreeCandidate(used, blacklist, stem, n) <==> n == Candidate(stem, i)
  {
    assert FirstFreeCandidate(used, blacklist, stem, Candidate(stem, i));
    forall n | FirstFreeCandidate(used, blacklist, stem, n) ensures n == Candidate(stem, i) {
      FirstFreeCandidateUnique(used, blacklist, stem, n, Candidate(stem, i));
    }
  }

  /** What `findCleanName` as written gives for `name`: the stem if it is
      free (neither a builtin nor recorded), and otherwise the first free
      candidate for it; nothing for a name without a stem. */
  ghost predicate CleanNameAsWritten(used: map<string, string>, blacklist: seq<string>, builtins: set<string>,
                                     name: string, r: Option<string>)
  {
    match Stripped(name, blacklist)
    case None => r == None
    case Some(stem) =>
      r.Some? && if stem !in builtins && stem !in used then r.value == stem
                 else FirstFreeCandidate(used, blacklist, stem, r.value)
  }

  /** The corrected search: a name without a stem keeps its text only while
      nobody has it, and otherwise gets the first free candidate for itself. */
  ghost predicate CleanName(used: map<string, string>, blacklist: seq<string>, builtins: set<string>,
                            name: string, r: Option<string>)
  {
    if Stripped(name, blacklist).None? && name in used then r.Some? && FirstFreeCandidate(used, blacklist, name, r.value)
    else CleanNameAsWritten(used, blacklist, builtins, name, r)
  }

  /** What the visitor as written has established after renaming the first
      `|renamed|` declared names, starting from the record `before`: the
      record only grows and keeps every entry whose name was not declared;
      every name so far is recorded, a name without a stem (`stems[i]`
      empty) keeps its text and one with a stem got a name nobody had, so
      it differs from the earlier ones; with distinct declared names each
      one maps to its new name. */
  ghost predicate RenamedSoFar(before: map<string, string>, used: map<string, string>, blacklist: seq<string>,
                               names: seq<string>, stems: seq<Option<string>>, distinct: bool,
                               renamed: seq<string>, declared: set<string>)
    requires |renamed| <= |names| == |stems|
  {
    && before.Keys <= used.Keys
    && (forall n :: n in declared ==> n in names)
    && (forall n :: n in before && n !in declared ==> used[n] == before[n])
    && (forall i :: 0 <= i < |renamed| ==>
          && renamed[i] in used && names[i] in used
          && (if stems[i].None? then renamed[i] == names[i] else renamed[i] !in before && renamed[i] !in blacklist))
    && (forall i, j :: 0 <= i < j < |renamed| && stems[j].Some? ==> renamed[i] != renamed[j])
    && (distinct ==> forall i :: 0 <= i < |renamed| ==> used[names[i]] == renamed[i])
  }

  /** Renaming the next declared name to `n`, as `makeCleanName` as written
      records it, keeps `RenamedSoFar`. */
  lemma RenamedStep(before: map<string, string>, used: map<string, string>, blacklist: seq<string>,
                    names: seq<string>, stems: seq<Option<string>>, distinct: bool,
                    renamed: seq<string>, declared: set<string>, n: string)
    requires |renamed| < |names| == |stems|
    requires RenamedSoFar(before, used, blacklist, names, stems, distinct, renamed, declared)
    requires distinct ==> forall i, j :: 0 <= i < j < |names| ==> names[i] != names[j]
    requires stems[|renamed|].None? ==> n == names[|renamed|]
    requires stems[|renamed|].Some? ==> n !in used && n !in blacklist
    ensures RenamedSoFar(before, used[n := n][names[|renamed|] := n], blacklist, names, stems, distinct,
                         renamed + [n], declared + {names[|renamed|]})
  {
    var k := |renamed|;
    var used' := used[n := n][names[k] := n];
    var renamed' := renamed + [n];
    forall n' | n' in before && n' !in declared + {names[k]}
      ensures used'[n'] == before[n']
    {
      assert n' != n by {
        if stems[k].Some? { assert n !in before; }
      }
    }
    forall i | 0 <= i < k + 1
      ensures renamed'[i] in used' && names[i] in used'
      ensures if stems[i].None? then renamed'[i] == names[i] else renamed'[i] !in before && renamed'[i] !in blacklist
    {
      if i < k { assert renamed'[i] == renamed[i]; }
    }
    forall i, j | 0 <= i < j < k + 1 && stems[j].Some?
      ensures renamed'[i] != renamed'[j]
    {
      if j == k { assert renamed'[i] == renamed[i] && renamed[i] in used; }
      else { assert renamed'[i] == renamed[i] && renamed'[j] == renamed[j]; }
    }
    if distinct {
      forall i | 0 <= i < k + 1
        ensures used'[names[i]] == renamed'[i]
      {
        if i < k {
          assert names[i] != names[k];
          assert renamed'[i] == renamed[i];
          if stems[k].Some? {
            assert used[names[i]] == renamed[i] && renamed[i] in used;
            assert names[i] != n by { assert names[i] in used; }
          } else {
            assert names[i] != n;
          }
        }
      }
    }
  }

  /** What the corrected visitor has established after renaming the first
      `|renamed|` declared names, starting from the record `before`: the
      record only grows and keeps every entry whose name was not declared;
      every name so far is recorded and got a name nobody had, all of them
      different; with distinct declared names each one maps to its new name. */
  ghost predicate FreshSoFar(before: map<string, string>, used: map<string, string>, names: seq<string>,
                             distinct: bool, renamed: seq<string>, declared: set<string>)
    requires |renamed| <= |names|
  {
    && before.Keys <= used.Keys
    && (forall n :: n in declared ==> n in names)
    && (forall n :: n in before && n !in declared ==> used[n] == before[n])
    && (forall i :: 0 <= i < |renamed| ==> renamed[i] !in before && renamed[i] in used && names[i] in used)
    && (forall i, j :: 0 <= i < j < |renamed| ==> renamed[i] != renamed[j])
    && (distinct ==> forall i :: 0 <= i < |renamed| ==> used[names[i]] == renamed[i])
  }

  /** Renaming the next declared name to a name `n` nobody has keeps `FreshSoFar`. */
  lemma FreshStep(before: map<string, string>, used: map<string, string>, names: seq<string>,
                  distinct: bool, renamed: seq<string>, declared: set<string>, n: string)
    requires |renamed| < |names|
    requires FreshSoFar(before, used, names, distinct, renamed, declared)
    requires distinct ==> forall i, j :: 0 <= i < j < |names| ==> names[i] != names[j]
    requires n !in used
    ensures FreshSoFar(before, used[n := n][names[|renamed|] := n], names, distinct,
                       renamed + [n], declared + {names[|renamed|]})
  {
    var k := |renamed|;
    var used' := used[n := n][names[k] := n];
    var renamed' := renamed + [n];
    forall n' | n' in before && n' !in declared + {names[k]}
      ensures used'[n'] == before[n']
    {
      assert n' != n;
    }
    forall i | 0 <= i < k + 1
      ensures renamed'[i] !in before && renamed'[i] in used' && names[i] in used'
    {
      if i < k { assert renamed'[i] == renamed[i]; }
    }
    forall i, j | 0 <= i < j < k + 1
      ensures renamed'[i] != renamed'[j]
    {
      if j == k { assert renamed'[i] == renamed[i] && renamed[i] in used; }
      else { assert renamed'[i] == renamed[i] && renamed'[j] == renamed[j]; }
    }
    if distinct {
      forall i | 0 <= i < k + 1
        ensures used'[names[i]] == renamed'[i]
      {
        if i < k {
          assert names[i] != names[k] && renamed'[i] == renamed[i];
          assert names[i] != n by { assert names[i] in used; }
        }
      }
    }
  }

  /** The search that names a declared variable: `findCleanName` as written,
      or the corrected one. */
  ghost predicate Cleaned(corrected: bool, used: map<string, string>, blacklist: seq<string>, builtins: set<string>,
                          name: string, r: Option<string>)
  {
    if corrected then CleanName(used, blacklist, builtins, name, r)
    else CleanNameAsWritten(used, blacklist, builtins, name, r)
  }

  /** The trace of a visitor over the first `|renamed|` declared names:
      `steps[i]` is the record before the i-th name, the search gave
      `results[i]` from it, the name became `results[i]` or stayed itself,
      and `makeCleanName` recorded it under the new and the old name. */
  ghost predicate Traced(corrected: bool, blacklist: seq<string>, builtins: set<string>, names: seq<string>,
                         renamed: seq<string>, steps: seq<map<string, string>>, results: seq<Option<string>>)
  {
    && |renamed| <= |names| && |steps| == |renamed| + 1 && |results| == |renamed|
    && forall i :: 0 <= i < |renamed| ==>
      && renamed[i] == results[i].GetOr(names[i])
      && steps[i + 1] == steps[i][renamed[i] := renamed[i]][names[i] := renamed[i]]
      && Cleaned(corrected, steps[i], blacklist, builtins, names[i], results[i])
  }

  /** One more declaration step extends the trace. */
  lemma TracedStep(corrected: bool, blacklist: seq<string>, builtins: set<string>, names: seq<string>,
                   renamed: seq<string>, steps: seq<map<string, string>>, results: seq<Option<string>>,
                   used: map<string, string>, r: Option<string>)
    requires Traced(corrected, blacklist, builtins, names, renamed, steps, results) && |renamed| < |names|
    requires Cleaned(corrected, steps[|renamed|], blacklist, builtins, names[|renamed|], r)
    requires var n := r.GetOr(names[|renamed|]);
      used == steps[|renamed|][n := n][names[|renamed|] := n]
    ensures Traced(corrected, blacklist, builtins, names, renamed + [r.GetOr(names[|renamed|])],
                   steps + [used], results + [r])
  {
    var k := |renamed|;
    var renamed', steps', results' := renamed + [r.GetOr(names[k])], steps + [used], results + [r];
    forall i | 0 <= i < k + 1
      ensures renamed'[i] == results'[i].GetOr(names[i])
      ensures steps'[i + 1] == steps'[i][renamed'[i] := renamed'[i]][names[i] := renamed'[i]]
      ensures Cleaned(corrected, steps'[i], blacklist, builtins, names[i], results'[i])
    {
      if i < k {
        assert renamed'[i] == renamed[i] && steps'[i] == steps[i] && steps'[i + 1] == steps[i + 1];
        assert results'[i] == results[i];
      }
    }
  }

  class VarNameCleaner {
    /** The names the dialect has as builtins (`m_dialect.builtin`). */
    const builtins: set<string>
    /** `m_blacklist`: names no variable may be given. */
    const blacklist: seq<string>
    /** `m_usedNames`: every name seen, mapped to the name it now has. */
    var usedNames: map<string, string>

    /** The blacklist is sorted, and every name handed out is itself recorded. */
    ghost predicate Valid()
      reads this
    {
      && Sorted(blacklist)
      && usedNames.Values <= usedNames.Keys
    }

    /** The blacklist is sorted once, so that it can be searched by halving. */
    constructor(builtins: set<string>, blacklist: seq<string>)
      ensures Valid()
      ensures this.builtins == builtins && this.blacklist == Sort(blacklist) && usedNames == map[]
      ensures multiset(this.blacklist) == multiset(blacklist)
    {
      this.builtins := builtins;
      this.blacklist := Sort(blacklist);
      usedNames := map[];
    }

    /** `stripSuffix`, with the blacklist looked up by binary search. */
    method StripSuffix(name: string) returns (r: Option<string>)
      requires Valid()
      ensures r == Stripped(name, blacklist)
    {
      var m := SuffixStart(name);
      if m.Some? && m.value > 0 {
        var stem := name[..m.value];
        var listed := BinarySearch(blacklist, stem);
        if !listed {
          return Some(stem);
        }
      }
      return None;
    }

    /** The loop of `findCleanName`: the first candidate that is neither
        recorded nor blacklisted. Only finitely many names are taken and the
        candidates are all different, so one of them is free. */
    method SuffixedName(stem: string) returns (n: string)
      requires Valid()
      ensures FirstFreeCandidate(usedNames, blacklist, stem, n)
    {
      ghost var pool := usedNames.Keys + (set b | b in blacklist);
      ghost var tried: set<string> := {};
      var i := 1;
      while true
        invariant 1 <= i
        invariant forall k :: 1 <= k < i ==> Taken(usedNames, blacklist, Candidate(stem, k))
        invariant tried <= pool
        invariant forall t :: t in tried ==> exists k :: 1 <= k < i && t == Candidate(stem, k)
        decreases pool - tried
      {
        var suffixed := stem + "_" + NatToDecimal(i);
        assert suffixed == Candidate(stem, i);
        if suffixed !in usedNames {
          var listed := BinarySearch(blacklist, suffixed);
          if !listed {
            return suffixed;
          }
        }
        if suffixed in tried {
          var k :| 1 <= k < i && suffixed == Candidate(stem, k);
          CandidateInjective(stem, i, k);
        }
        tried := tried + {suffixed};
        i := i + 1;
      }
    }

    /** `findCleanName` as written. */
    method FindCleanNameAsWritten(name: string) returns (r: Option<string>)
      requires Valid()
      ensures CleanNameAsWritten(usedNames, blacklist, builtins, name, r)
      ensures r.None? <==> Stripped(name, blacklist).None?
      ensures r.Some? ==> !Taken(usedNames, blacklist, r.value)
    {
      var stripped := StripSuffix(name);
      if stripped.Some? {
        var stem := stripped.value;
        StrippedSpec(name, blacklist);
        if stem !in builtins && stem !in usedNames {
          return Some(stem);
        }
        var n := SuffixedName(stem);
        return Some(n);
      }
      return None;
    }

    /** `findCleanName`, corrected: whatever it gives is free. */
    method FindCleanName(name: string) returns (r: Option<string>)
      requires Valid()
      ensures CleanName(usedNames, blacklist, builtins, name, r)
      ensures r.None? <==> Stripped(name, blacklist).None? && name !in usedNames
      ensures r.Some? ==> !Taken(usedNames, blacklist, r.value)
    {
      r := FindCleanNameAsWritten(name);
      if r.None? && name in usedNames {
        var n := SuffixedName(name);
        r := Some(n);
      }
    }

    /** `getCleanName`: the recorded new name, when there is one and it differs. */
    function GetCleanName(name: string): (r: Option<string>)
      reads this
      ensures r.Some? <==> name in usedNames && usedNames[name] != name
      ensures r.Some? ==> r.value == usedNames[name]
    {
      if name in usedNames && usedNames[name] != name then Some(usedNames[name]) else None
    }

    /** `makeCleanName` as written: the clean name is recorded for itself and
        for the old name; a name without one is recorded as itself. */
    method MakeCleanNameAsWritten(name: string) returns (r: Option<string>)
      requires Valid()
      modifies this
      ensures Valid()
      ensures CleanNameAsWritten(old(usedNames), blacklist, builtins, name, r)
      ensures usedNames == old(usedNames)[r.GetOr(name) := r.GetOr(name)][name := r.GetOr(name)]
      ensures r.None? <==> Stripped(name, blacklist).None?
      ensures r.Some? ==> r.value !in old(usedNames) && r.value !in blacklist
      ensures GetCleanName(name) == (if r == Some(name) then None else r)
    {
      r := FindCleanNameAsWritten(name);
      if r.Some? {
        usedNames := usedNames[r.value := r.value];
        usedNames := usedNames[name := r.value];
      } else {
        usedNames := usedNames[name := name];
      }
    }

    /** `makeCleanName` over the corrected search: the name a declaration
        ends up with was not recorded before, so no two declarations share it. */
    method MakeCleanName(name: string) returns (r: Option<string>)
      requires Valid()
      modifies this
      ensures Valid()
      ensures CleanName(old(usedNames), blacklist, builtins, name, r)
      ensures usedNames == old(usedNames)[r.GetOr(name) := r.GetOr(name)][name := r.GetOr(name)]
      ensures r.None? <==> Stripped(name, blacklist).None? && name !in old(usedNames)
      ensures r.GetOr(name) !in old(usedNames)
      ensures r.Some? ==> r.value !in blacklist
      ensures GetCleanName(name) == (if r == Some(name) then None else r)
    {
      r := FindCleanName(name);
      if r.Some? {
        usedNames := usedNames[r.value := r.value];
        usedNames := usedNames[name := r.value];
      } else {
        usedNames := usedNames[name := name];
      }
    }

    /** The visitor of an identifier: the name its declaration now has. */
    function VisitIdentifier(name: string): (r: string)
      reads this
      ensures name in usedNames ==> r == usedNames[name]
      ensures name !in usedNames ==> r == name
    {
      match GetCleanName(name)
      case Some(n) => n
      case None => name
    }

    /** One declared variable as the visitor as written handles it: the
        name it ends up with, which is recorded for itself and for its old
        name. */
    method RenameAsWritten(name: string) returns (n: string)
      requires Valid()
      modifies this
      ensures Valid()
      ensures usedNames == old(usedNames)[n := n][name := n]
      ensures Stripped(name, blacklist).None? ==> n == name
      ensures Stripped(name, blacklist).Some? ==> n !in old(usedNames) && n !in blacklist
      ensures CleanNameAsWritten(old(usedNames), blacklist, builtins, name,
                                 if Stripped(name, blacklist).Some? then Some(n) else None)
    {
      var r := MakeCleanNameAsWritten(name);
      n := r.GetOr(name);
    }

    /** The visitor of a variable declaration as written: each declared name
        in turn is given its clean name by `makeCleanName` as written. A name
        without a stem keeps its text; a name with one gets a name nobody
        had, so it differs from the names given before it in the same
        declaration; and, among distinct declared names, each identifier
        that refers to a declared name afterwards takes that name's new name. */
    method VisitVariableDeclarationAsWritten(names: seq<string>)
      returns (renamed: seq<string>, ghost steps: seq<map<string, string>>, ghost results: seq<Option<string>>)
      requires Valid()
      modifies this
      ensures Valid()
      ensures |renamed| == |names| && |steps| == |names| + 1 && |results| == |names|
      ensures steps[0] == old(usedNames) && steps[|names|] == usedNames
      ensures forall i :: 0 <= i < |names| ==>
        && renamed[i] == results[i].GetOr(names[i])
        && steps[i + 1] == steps[i][renamed[i] := renamed[i]][names[i] := renamed[i]]
        && CleanNameAsWritten(steps[i], blacklist, builtins, names[i], results[i])
      ensures forall i :: 0 <= i < |names| ==> renamed[i] in usedNames
      ensures forall i :: 0 <= i < |names| && Stripped(names[i], blacklist).None? ==> renamed[i] == names[i]
      ensures forall i :: 0 <= i < |names| && Stripped(names[i], blacklist).Some? ==>
        renamed[i] !in old(usedNames) && renamed[i] !in blacklist
      ensures forall i, j :: 0 <= i < j < |names| && Stripped(names[j], blacklist).Some? ==> renamed[i] != renamed[j]
      ensures (forall i, j :: 0 <= i < j < |names| ==> names[i] != names[j]) ==>
        forall i :: 0 <= i < |names| ==> VisitIdentifier(names[i]) == renamed[i]
      ensures forall n :: n in old(usedNames) ==> n in usedNames
      ensures forall n :: n in old(usedNames) && n !in names ==> usedNames[n] == old(usedNames)[n]
    {
      ghost var distinct := forall i, j :: 0 <= i < j < |names| ==> names[i] != names[j];
      ghost var stems := seq(|names|, i requires 0 <= i < |names| => Stripped(names[i], blacklist));
      ghost var declared: set<string> := {};
      renamed, steps, results := [], [usedNames], [];
      for k := 0 to |names|
        invariant Valid()
        invariant |renamed| == k
        invariant RenamedSoFar(old(usedNames), usedNames, blacklist, names, stems, distinct, renamed, declared)
        invariant Traced(false, blacklist, builtins, names, renamed, steps, results)
        invariant |steps| == k + 1 && |results| == k && steps[0] == old(usedNames) && steps[k] == usedNames
      {
        ghost var current := usedNames;
        var n := RenameAsWritten(names[k]);
        ghost var r := if stems[k].Some? then Some(n) else None;
        RenamedStep(old(usedNames), current, blacklist, names, stems, distinct, renamed, declared, n);
        TracedStep(false, blacklist, builtins, names, renamed, steps, results, usedNames, r);
        renamed, steps, results := renamed + [n], steps + [usedNames], results + [r];
        declared := declared + {names[k]};
      }
    }

    method VisitVariableDeclaration(names: seq<string>)
      returns (renamed: seq<string>, ghost steps: seq<map<string, string>>, ghost results: seq<Option<string>>)
      requires Valid()
      modifies this
      ensures Valid()
      ensures |renamed| == |names| && |steps| == |names| + 1 && |results| == |names|
      ensures steps[0] == old(usedNames) && steps[|names|] == usedNames
      ensures forall i :: 0 <= i < |names| ==>
        && renamed[i] == results[i].GetOr(names[i])
        && steps[i + 1] == steps[i][renamed[i] := renamed[i]][names[i] := renamed[i]]
        && CleanName(steps[i], blacklist, builtins, names[i], results[i])
      ensures forall i :: 0 <= i < |names| ==> renamed[i] !in old(usedNames) && renamed[i] in usedNames
      ensures forall i, j :: 0 <= i < j < |names| ==> renamed[i] != renamed[j]
      ensures (forall i, j :: 0 <= i < j < |names| ==> names[i] != names[j]) ==>
        forall i :: 0 <= i < |names| ==> VisitIdentifier(names[i]) == renamed[i]
      ensures forall n :: n in old(usedNames) ==> n in usedNames
      ensures forall n :: n in old(usedNames) && n !in names ==> usedNames[n] == old(usedNames)[n]
    {
      ghost var distinct := forall i, j :: 0 <= i < j < |names| ==> names[i] != names[j];
      ghost var declared: set<string> := {};
      renamed, steps, results := [], [usedNames], [];
      for k := 0 to |names|
        invariant Valid()
        invariant |renamed| == k
        invariant |steps| == k + 1 && |results| == k && steps[0] == old(usedNames) && steps[k] == usedNames
        invariant Traced(true, blacklist, builtins, names, renamed, steps, results)
        invariant FreshSoFar(old(usedNames), usedNames, names, distinct, renamed, declared)
      {
        ghost var current := usedNames;
        var r := MakeCleanName(names[k]);
        var n := r.GetOr(names[k]);
        FreshStep(old(usedNames), current, names, distinct, renamed, declared, n);
        TracedStep(true, blacklist, builtins, names, renamed, steps, results, usedNames, r);
        renamed, steps, results := renamed + [n], steps + [usedNames], results + [r];
        declared := declared + {names[k]};
      }
    }
  }

  // ---------------------------------------------------------------------
  // The transformations the source lists as its intent.
  // ---------------------------------------------------------------------

  lemma StrippedExamples()
    ensures Stripped("abi_decode_256", []) == Some("abi_decode")
    ensures Stripped("a_1_2", []) == Some("a")
    ensures Stripped("a_15", []) == Some("a")
    ensures Stripped("a", []) == None
    ensures Stripped("_1", []) == None
    ensures Stripped("x_1", ["x"]) == None
  {
    var s := "abi_decode_256";
    assert SuffixRunStart(s, 14) == 10 by {
      assert SuffixChar(s[13]) && SuffixChar(s[12]) && SuffixChar(s[11]) && SuffixChar(s[10]) && !SuffixChar(s[9]);
    }
    assert s[..10] == "abi_decode";
    var t := "a_1_2";
    assert SuffixRunStart(t, 5) == 1 by {
      assert SuffixChar(t[4]) && SuffixChar(t[3]) && SuffixChar(t[2]) && SuffixChar(t[1]) && !SuffixChar(t[0]);
    }
    assert t[..1] == "a";
    var u := "a_15";
    assert SuffixRunStart(u, 4) == 1 by {
      assert SuffixChar(u[3]) && SuffixChar(u[2]) && SuffixChar(u[1]) && !SuffixChar(u[0]);
    }
    assert u[..1] == "a";
    var v := "_1";
    assert SuffixRunStart(v, 2) == 0 by {
      assert SuffixChar(v[1]) && SuffixChar(v[0]);
    }
    var w := "x_1";
    assert SuffixRunStart(w, 3) == 1 by {
      assert SuffixChar(w[2]) && SuffixChar(w[1]) && !SuffixChar(w[0]);
    }
    assert w[..1] == "x";
  }

  /** The one-number suffixes of `a` and `b` that the traced examples use. */
  lemma ShortStemExamples()
    ensures Stripped("a_1", []) == Some("a") && Stripped("a_2", []) == Some("a")
    ensures Stripped("a_17", []) == Some("a") && Stripped("b_1", []) == Some("b")
  {
    var t := "a_1";
    assert SuffixRunStart(t, 3) == 1 by {
      assert SuffixChar(t[2]) && SuffixChar(t[1]) && !SuffixChar(t[0]);
    }
    assert t[..1] == "a";
    var u := "a_2";
    assert SuffixRunStart(u, 3) == 1 by {
      assert SuffixChar(u[2]) && SuffixChar(u[1]) && !SuffixChar(u[0]);
    }
    assert u[..1] == "a";
    var v := "a_17";
    assert SuffixRunStart(v, 4) == 1 by {
      assert SuffixChar(v[3]) && SuffixChar(v[2]) && SuffixChar(v[1]) && !SuffixChar(v[0]);
    }
    assert v[..1] == "a";
    var w := "b_1";
    assert SuffixRunStart(w, 3) == 1 by {
      assert SuffixChar(w[2]) && SuffixChar(w[1]) && !SuffixChar(w[0]);
    }
    assert w[..1] == "b";
  }
}

/** `AIDetector`: a first-match-wins search for an AI tool's name in a
    commit message, over an ordered table of groups, each a tag ("claude",
    "copilot", ...) and a list of regular expressions.  Python dicts keep
    insertion order, so a table is a sequence of (tag, patterns) pairs.
    Regular-expression matching is not modelled: a compiled pattern is an
    abstract `Regex` that remembers its source, and `pattern.search` is the
    detector's function-valued field `search`. */
module Detector {
  import opened Wrappers

  /** `re.compile(source)`. */
  datatype Regex = Regex(source: string)

  /** A `dict` from tag to pattern sources, in insertion order. */
  type PatternTable = seq<(string, seq<string>)>

  /** A `dict` from tag to compiled patterns, in insertion order. */
  type CompiledTable = seq<(string, seq<Regex>)>

  /** The keys of a table, in order. */
  function Keys<P>(t: seq<(string, P)>): (ks: seq<string>)
    ensures |ks| == |t|
    ensures forall i :: 0 <= i < |t| ==> ks[i] == t[i].0
  {
    seq(|t|, i requires 0 <= i < |t| => t[i].0)
  }

  /** A dict never holds a key twice. */
  predicate DistinctKeys<P>(t: seq<(string, P)>) {
    forall i, j :: 0 <= i < j < |t| ==> t[i].0 != t[j].0
  }

  /** `self.patterns or AI_PATTERNS`: the given table unless it is `None`
      or empty (an empty dict is falsy), otherwise the defaults.  The
      detector is left without patterns only when both are empty. */
  function ChoosePatterns(given: Option<PatternTable>, defaults: PatternTable): (t: PatternTable)
    ensures given.Some? && given.value != [] ==> t == given.value
    ensures given.None? || given.value == [] ==> t == defaults
    ensures t == [] <==> defaults == [] && (given.None? || given.value == [])
  {
    match given
    case Some(p) => if p != [] then p else defaults
    case None => defaults
  }

  /** The dict comprehension that compiles every pattern of every group. */
  function Compile(t: PatternTable): (c: CompiledTable)
    ensures Keys(c) == Keys(t)
    ensures forall i :: 0 <= i < |t| ==> |c[i].1| == |t[i].1|
  {
    seq(|t|, i requires 0 <= i < |t| =>
      (t[i].0, seq(|t[i].1|, j requires 0 <= j < |t[i].1| => Regex(t[i].1[j]))))
  }

  /** The source table of a compiled table (each `pattern.pattern`). */
  function Sources(c: CompiledTable): PatternTable {
    seq(|c|, i requires 0 <= i < |c| =>
      (c[i].0, seq(|c[i].1|, j requires 0 <= j < |c[i].1| => c[i].1[j].source)))
  }

  /** Compiling keeps every key, in order, and one compiled entry per source
      pattern, in list order: the sources can be read back unchanged. */
  lemma CompileSources(t: PatternTable)
    ensures Sources(Compile(t)) == t
  {
    var r := Sources(Compile(t));
    forall i | 0 <= i < |t|
      ensures r[i] == t[i]
    {
      assert r[i].1 == t[i].1;
    }
  }

  /** Compilation keeps the keys distinct, as a dict comprehension must. */
  lemma CompileDistinct(t: PatternTable)
    requires DistinctKeys(t)
    ensures DistinctKeys(Compile(t))
  {
    var c := Compile(t);
    forall i, j | 0 <= i < j < |c|
      ensures c[i].0 != c[j].0
    {
      assert Keys(c)[i] == Keys(t)[i] && Keys(c)[j] == Keys(t)[j];
    }
  }

  /** Some pattern of the group finds a match in the message. */
  predicate GroupMatches(search: (Regex, string) -> bool, ps: seq<Regex>, msg: string) {
    exists j :: 0 <= j < |ps| && search(ps[j], msg)
  }

  /** `detect`: the tag of the first group, in table order, with a pattern
      that matches the message; `None` if there is none. */
  function FirstMatch(search: (Regex, string) -> bool, t: CompiledTable, msg: string): Option<string>
    decreases |t|
  {
    if t == [] then None
    else if GroupMatches(search, t[0].1, msg) then Some(t[0].0)
    else FirstMatch(search, t[1..], msg)
  }

  /** Group `i` matches and no earlier group does. */
  predicate IsFirstMatch(search: (Regex, string) -> bool, t: CompiledTable, msg: string, i: nat) {
    && i < |t|
    && GroupMatches(search, t[i].1, msg)
    && forall h :: 0 <= h < i ==> !GroupMatches(search, t[h].1, msg)
  }

  /** The search from group `i` on: group `i` if it matches, else the rest. */
  lemma FirstMatchAt(search: (Regex, string) -> bool, t: CompiledTable, msg: string, i: nat)
    requires i < |t|
    ensures FirstMatch(search, t[i..], msg) ==
            if GroupMatches(search, t[i].1, msg) then Some(t[i].0)
            else FirstMatch(search, t[i + 1..], msg)
  {
    assert t[i..][1..] == t[i + 1..];
  }

  /** `detect` answers with the tag of the first matching group, whichever
      pattern of that group matched, and answers `None` exactly when no
      pattern of any group matches. */
  lemma {:induction false} FirstMatchSpec(search: (Regex, string) -> bool, t: CompiledTable, msg: string)
    ensures forall i: nat :: IsFirstMatch(search, t, msg, i) ==> FirstMatch(search, t, msg) == Some(t[i].0)
    ensures FirstMatch(search, t, msg).None? <==>
            forall i :: 0 <= i < |t| ==> !GroupMatches(search, t[i].1, msg)
    ensures FirstMatch(search, t, msg).Some? ==>
            exists i: nat :: IsFirstMatch(search, t, msg, i) && FirstMatch(search, t, msg).value == t[i].0
    decreases |t|
  {
    if t != [] {
      var rest := t[1..];
      FirstMatchSpec(search, rest, msg);
      if GroupMatches(search, t[0].1, msg) {
        assert IsFirstMatch(search, t, msg, 0);
      } else {
        forall i: nat | IsFirstMatch(search, t, msg, i)
          ensures FirstMatch(search, t, msg) == Some(t[i].0)
        {
          assert IsFirstMatch(search, rest, msg, i - 1);
        }
        if FirstMatch(search, rest, msg).Some? {
          var i: nat :| IsFirstMatch(search, rest, msg, i) && FirstMatch(search, rest, msg).value == rest[i].0;
          assert IsFirstMatch(search, t, msg, i + 1);
        } else {
          assert forall i :: 1 <= i < |t| ==> t[i] == rest[i - 1];
        }
      }
    }
  }

  /** A tag `detect` returns is always one of the table's keys. */
  lemma FirstMatchIsKey(search: (Regex, string) -> bool, t: CompiledTable, msg: string)
    requires FirstMatch(search, t, msg).Some?
    ensures FirstMatch(search, t, msg).value in Keys(t)
  {
    FirstMatchSpec(search, t, msg);
    var i: nat :| IsFirstMatch(search, t, msg, i) && FirstMatch(search, t, msg).value == t[i].0;
    assert Keys(t)[i] == t[i].0;
  }

  /** Group order beats match position: once a group matches, no later
      group's tag is returned. */
  lemma FirstMatchPrecedence(search: (Regex, string) -> bool, t: CompiledTable, msg: string, a: nat, b: nat)
    requires DistinctKeys(t)
    requires a < b < |t| && GroupMatches(search, t[a].1, msg)
    ensures FirstMatch(search, t, msg) != Some(t[b].0)
  {
    FirstMatchSpec(search, t, msg);
    var i: nat :| IsFirstMatch(search, t, msg, i) && FirstMatch(search, t, msg).value == t[i].0;
    assert i <= a;
  }

  /** `parse_commit_message`'s dict: the detected tag under "ai_type" and
      whether there is one under "is_ai". */
  datatype CommitAttribution = CommitAttribution(aiType: Option<string>, isAi: bool)

  class AIDetector {
    /** `self.patterns` */
    const patterns: PatternTable
    /** `self.compiled_patterns` */
    const compiledPatterns: CompiledTable
    /** `pattern.search(message)` returns a match object, or `None`. */
    const search: (Regex, string) -> bool

    /** The pattern table is a dict, so its keys are distinct, and the
        compiled table is its compilation. */
    predicate Valid() {
      DistinctKeys(patterns) && compiledPatterns == Compile(patterns)
    }

    /** `AIDetector(patterns)`, with `config.AI_PATTERNS` passed in as
        `defaults` and the regular-expression engine as `search`.  Both
        tables are dicts, so their keys are distinct. */
    constructor(given: Option<PatternTable>, defaults: PatternTable, search: (Regex, string) -> bool)
      requires given.Some? ==> DistinctKeys(given.value)
      requires DistinctKeys(defaults)
      ensures patterns == ChoosePatterns(given, defaults)
      ensures Valid()
      ensures this.search == search
    {
      patterns := ChoosePatterns(given, defaults);
      compiledPatterns := Compile(ChoosePatterns(given, defaults));
      this.search := search;
    }

    /** `detect(commit_message)`: the nested search with early return.  Group
        order beats match position: no group after a matching one is
        reported. */
    method Detect(commitMessage: string) returns (aiType: Option<string>)
      requires Valid()
      ensures aiType == FirstMatch(search, compiledPatterns, commitMessage)
      ensures forall a, b :: 0 <= a < b < |compiledPatterns| && GroupMatches(search, compiledPatterns[a].1, commitMessage)
                ==> aiType != Some(compiledPatterns[b].0)
    {
      CompileDistinct(patterns);
      forall a, b | 0 <= a < b < |compiledPatterns| && GroupMatches(search, compiledPatterns[a].1, commitMessage)
        ensures FirstMatch(search, compiledPatterns, commitMessage) != Some(compiledPatterns[b].0)
      {
        FirstMatchPrecedence(search, compiledPatterns, commitMessage, a, b);
      }
      var i := 0;
      while i < |compiledPatterns|
        invariant i <= |compiledPatterns|
        invariant FirstMatch(search, compiledPatterns, commitMessage) ==
                  FirstMatch(search, compiledPatterns[i..], commitMessage)
      {
        var (tag, compiledList) := compiledPatterns[i];
        FirstMatchAt(search, compiledPatterns, commitMessage, i);
        var j := 0;
        while j < |compiledList|
          invariant j <= |compiledList|
          invariant forall h :: 0 <= h < j ==> !search(compiledList[h], commitMessage)
        {
          if search(compiledList[j], commitMessage) {
            return Some(tag);
          }
          j := j + 1;
        }
        i := i + 1;
      }
      assert compiledPatterns[i..] == [];
      return None;
    }

    /** `is_ai_assisted(commit_message)`: some pattern of some group matches. */
    method IsAiAssisted(commitMessage: string) returns (b: bool)
      requires Valid()
      ensures b <==> FirstMatch(search, compiledPatterns, commitMessage).Some?
      ensures b <==> exists i :: 0 <= i < |compiledPatterns| && GroupMatches(search, compiledPatterns[i].1, commitMessage)
    {
      var aiType := Detect(commitMessage);
      FirstMatchSpec(search, compiledPatterns, commitMessage);
      b := aiType.Some?;
    }

    /** `parse_commit_message(commit_message)`. */
    method ParseCommitMessage(commitMessage: string) returns (r: CommitAttribution)
      requires Valid()
      ensures r.aiType == FirstMatch(search, compiledPatterns, commitMessage)
      ensures r.isAi <==> r.aiType.Some?
      ensures r.aiType.Some? ==> r.aiType.value in Keys(patterns)
    {
      var aiType := Detect(commitMessage);
      if aiType.Some? {
        FirstMatchIsKey(search, compiledPatterns, commitMessage);
      }
      r := CommitAttribution(aiType, aiType.Some?);
    }
  }
}

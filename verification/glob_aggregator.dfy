/** `parseGlobs` of gulpfile.js: every file matched by every partial pattern is resolved
    with the pattern's literal prefix as strip prefix, and stored in one dictionary from
    partial name to template text. */
module GlobAggregator {
  import opened Wrappers
  import opened JsString
  import opened PartialResolver

  /** Line 137: `pattern.substring(0, pattern.indexOf('*'))`. With no '*', `indexOf`
      gives -1, which `substring` clamps to 0. */
  function GlobPrefix(pattern: string): (r: string)
    ensures r <= pattern
  {
    Substring(pattern, 0, IndexOf(pattern, "*"))
  }

  /** The strip prefix is the text of the pattern before its first '*', and empty when
      the pattern has no '*'. */
  lemma GlobPrefixBeforeFirstStar(pattern: string)
    ensures GlobPrefix(pattern) <= pattern
    ensures '*' !in GlobPrefix(pattern)
    ensures '*' in pattern ==> pattern[|GlobPrefix(pattern)|] == '*'
    ensures '*' !in pattern ==> GlobPrefix(pattern) == ""
  {
    IndexOfChar(pattern, '*');
    var i := IndexOf(pattern, "*");
    if i >= 0 {
      assert GlobPrefix(pattern) == pattern[..i];
      forall c | c in pattern[..i]
        ensures c != '*'
      {
        var j :| 0 <= j < i && pattern[..i][j] == c;
        assert pattern[j] == c;
      }
    }
  }

  /** A pattern made of a '*'-free root, a '*' and anything after has the root as its
      strip prefix. */
  lemma GlobPrefixOfRoot(root: string, rest: string)
    requires '*' !in root
    ensures GlobPrefix(root + "*" + rest) == root
  {
    var pattern := root + "*" + rest;
    assert pattern[|root|] == '*';
    GlobPrefixBeforeFirstStar(pattern);
    var p := GlobPrefix(pattern);
    assert forall j :: 0 <= j < |root| ==> pattern[j] == root[j] && root[j] in root;
    assert |p| == |root|;
    assert p == pattern[..|root|] == root;
  }

  /** With a pattern made of a root directory, a '*' and anything after it (such as the
      configured partials pattern of line 30), a file `file` in a sub-directory `dir` of
      the root is named `dir` + "_" + `file`. */
  lemma NestedPartialName(root: string, rest: string, dir: string, file: string)
    requires '*' !in root && '.' !in root
    requires '.' !in dir && '/' !in dir && dir != "" && dir[0] != '_'
    requires '.' !in file && '/' !in file
    ensures IndexOf(root + dir + "/" + file + Extension, Extension) >= 0
    ensures PartialName(root + dir + "/" + file + Extension, GlobPrefix(root + "*" + rest)) == dir + "_" + file
  {
    GlobPrefixOfRoot(root, rest);
    var tail := dir + "/" + file;
    assert root + dir + "/" + file == root + tail;
    assert '.' !in root + tail;
    DotFreeStem(root + tail);
    StemName(root + tail, root);
    ReplaceAtStart(root, tail, "");
    assert "" + tail == tail;
    FlatName(dir, file);
  }

  /** With the same kind of pattern, a file `_file` directly under the root is named `file`. */
  lemma RootPartialName(root: string, rest: string, file: string)
    requires '*' !in root && '.' !in root
    requires '.' !in file && '/' !in file
    ensures IndexOf(root + "_" + file + Extension, Extension) >= 0
    ensures PartialName(root + "_" + file + Extension, GlobPrefix(root + "*" + rest)) == file
  {
    GlobPrefixOfRoot(root, rest);
    var tail := "_" + file;
    assert root + "_" + file == root + tail;
    assert '.' !in root + tail;
    DotFreeStem(root + tail);
    StemName(root + tail, root);
    ReplaceAtStart(root, tail, "");
    assert "" + tail == tail;
    LeadingUnderscoreName(file);
  }

  /** The two partial patterns configured at lines 30-31 strip their directories. */
  lemma ConfiguredPrefixes()
    ensures GlobPrefix("src/templates/partials/**/*.mustache") == "src/templates/partials/"
    ensures GlobPrefix("src/templates/layout/**/*.mustache") == "src/templates/layout/"
  {
    var partialsRoot, layoutRoot, rest := "src/templates/partials/", "src/templates/layout/", "*/*.mustache";
    assert partialsRoot + "*" + rest == "src/templates/partials/**/*.mustache";
    assert layoutRoot + "*" + rest == "src/templates/layout/**/*.mustache";
    GlobPrefixOfRoot(partialsRoot, rest);
    GlobPrefixOfRoot(layoutRoot, rest);
  }

  /** The root of the configured partials directory holds neither '*' nor '.'. */
  lemma PartialsRootCharacters(root: string)
    requires root == "src/templates/partials/"
    ensures '*' !in root && '.' !in root
  {
  }

  /** Under the configured partials pattern (line 30), "nav/top.mustache" is named
      "nav_top". */
  lemma ConfiguredNestedName()
    ensures PartialName("src/templates/partials/nav/top.mustache", GlobPrefix("src/templates/partials/**/*.mustache")) == "nav_top"
  {
    var root, dir, file, rest := "src/templates/partials/", "nav", "top", "*/*.mustache";
    assert root + dir + "/" + file + Extension == "src/templates/partials/nav/top.mustache";
    assert root + "*" + rest == "src/templates/partials/**/*.mustache";
    assert dir + "_" + file == "nav_top";
    PartialsRootCharacters(root);
    assert '.' !in dir && '/' !in dir && dir[0] != '_' && '.' !in file && '/' !in file;
    NestedPartialName(root, rest, dir, file);
  }

  /** Under the same pattern "_y.mustache" is named "y". */
  lemma ConfiguredUnderscoredName()
    ensures PartialName("src/templates/partials/_y.mustache", GlobPrefix("src/templates/partials/**/*.mustache")) == "y"
  {
    var root, y, rest := "src/templates/partials/", "y", "*/*.mustache";
    assert root + "_" + y + Extension == "src/templates/partials/_y.mustache";
    assert root + "*" + rest == "src/templates/partials/**/*.mustache";
    PartialsRootCharacters(root);
    assert '.' !in y && '/' !in y;
    RootPartialName(root, rest, y);
  }

  /** A file `glob` matched, with the text that reading it yields. */
  datatype MatchedFile = MatchedFile(path: string, content: string)

  /** What `glob` handed to its callback for one pattern: whether its `err` argument was
      set, and the matched files in the order their resolutions complete. */
  datatype Expansion = Expansion(pattern: string, globFailed: bool, files: seq<MatchedFile>)

  /** The `partials` object: a property value is a string or, for a rejected file,
      `undefined` (`None`). */
  type Partials = map<string, Option<string>>

  /** `partials[undefined]` writes the property named "undefined". */
  const UndefinedKey := "undefined"

  /** Line 141: the property `partials[name]` writes; JavaScript turns an `undefined`
      name into the property "undefined". */
  function KeyOf(reply: Reply): (key: string)
    ensures reply.Resolved? ==> key == reply.name
    ensures reply.Rejected? ==> key == UndefinedKey
  {
    if reply.Resolved? then reply.name else UndefinedKey
  }

  /** Line 141: the value `partials[name] = content` stores; `undefined` exactly for a
      rejected file. */
  function ValueOf(reply: Reply): (v: Option<string>)
    ensures v == None <==> reply.Rejected?
    ensures reply.Resolved? ==> v == Some(reply.content)
  {
    if reply.Resolved? then Some(reply.content) else None
  }

  /** One call of the inner iterator (lines 136-144): a matched file, the strip prefix of
      its pattern, and that pattern's glob error flag. */
  datatype Job = Job(after: string, globFailed: bool, file: MatchedFile)

  function ReplyOf(job: Job): Reply
  {
    Resolve(job.file.path, Prefix(job.after), job.file.content)
  }

  /** The inner iterator's calls for one pattern. */
  function JobsOf(e: Expansion): (r: seq<Job>)
    ensures |r| == |e.files|
    ensures forall k :: 0 <= k < |r| ==> r[k].file == e.files[k] && r[k].after == GlobPrefix(e.pattern) && r[k].globFailed == e.globFailed
  {
    seq(|e.files|, k requires 0 <= k < |e.files| => Job(GlobPrefix(e.pattern), e.globFailed, e.files[k]))
  }

  /** The number of files matched by all patterns. */
  function FileCount(exps: seq<Expansion>): nat
  {
    if exps == [] then 0 else |exps[0].files| + FileCount(exps[1..])
  }

  /** All inner iterator calls, pattern after pattern: one per matched file. */
  function Jobs(exps: seq<Expansion>): (r: seq<Job>)
    ensures |r| == FileCount(exps)
  {
    if exps == [] then [] else JobsOf(exps[0]) + Jobs(exps[1..])
  }

  /** Lines 138-139: under a glob error the callback passes `parseErr` on, which ends
      the batch exactly when the file was rejected. */
  predicate Aborts(job: Job): (b: bool)
    ensures b <==> job.globFailed && ReplyOf(job).Err() != ""
  {
    job.globFailed && ReplyOf(job).Rejected?
  }

  /** The calls of `jobs` applied in order to `partials`, ending as the final callback
      of lines 152-158 reports. */
  function Aggregate(jobs: seq<Job>, partials: Partials): (r: Result<Partials, string>)
    ensures r.Success? ==> partials.Keys <= r.value.Keys
    ensures r.Failure? ==> exists j :: 0 <= j < |jobs| && Aborts(jobs[j]) && r.error == ReplyOf(jobs[j]).Err()
  {
    if jobs == [] then Success(partials)
    else
      var reply := ReplyOf(jobs[0]);
      if jobs[0].globFailed then
        if reply.Err() != "" then Failure(reply.Err()) else Aggregate(jobs[1..], partials)
      else Aggregate(jobs[1..], partials[KeyOf(reply) := ValueOf(reply)])
  }

  /** The batch fails exactly when some call aborts it (`FirstAbortReported` gives the
      message). */
  lemma {:induction false} AggregateFails(jobs: seq<Job>, partials: Partials)
    ensures Aggregate(jobs, partials).Failure? <==> exists j :: 0 <= j < |jobs| && Aborts(jobs[j])
  {
    if jobs != [] && !Aborts(jobs[0]) && exists j :: 0 <= j < |jobs| && Aborts(jobs[j]) {
      var j :| 0 <= j < |jobs| && Aborts(jobs[j]);
      assert Aborts(jobs[1..][j - 1]);
      var next := if jobs[0].globFailed then partials
                  else partials[KeyOf(ReplyOf(jobs[0])) := ValueOf(ReplyOf(jobs[0]))];
      AggregateFails(jobs[1..], next);
    }
  }

  /** The first aborting call decides the error reported. */
  lemma {:induction false} FirstAbortReported(jobs: seq<Job>, partials: Partials, k: nat)
    requires k < |jobs| && Aborts(jobs[k])
    requires forall j :: 0 <= j < k ==> !Aborts(jobs[j])
    ensures Aggregate(jobs, partials) == Failure("Invalid mustache file: " + jobs[k].file.path)
  {
    if k > 0 {
      var next := if jobs[0].globFailed then partials
                  else partials[KeyOf(ReplyOf(jobs[0])) := ValueOf(ReplyOf(jobs[0]))];
      FirstAbortReported(jobs[1..], next, k - 1);
    }
  }

  /** The keys written by the calls of `jobs` made without a glob error. */
  ghost function Written(jobs: seq<Job>): set<string>
  {
    if jobs == [] then {}
    else (if jobs[0].globFailed then {} else {KeyOf(ReplyOf(jobs[0]))}) + Written(jobs[1..])
  }

  /** A key is written exactly when some call made without a glob error has it. */
  lemma {:induction false} WrittenKeys(jobs: seq<Job>)
    ensures Written(jobs) == set j | 0 <= j < |jobs| && !jobs[j].globFailed :: KeyOf(ReplyOf(jobs[j]))
  {
    if jobs != [] {
      WrittenKeys(jobs[1..]);
      var tail := set j | 0 <= j < |jobs[1..]| && !jobs[1..][j].globFailed :: KeyOf(ReplyOf(jobs[1..][j]));
      var all := set j | 0 <= j < |jobs| && !jobs[j].globFailed :: KeyOf(ReplyOf(jobs[j]));
      forall key | key in all
        ensures key in Written(jobs)
      {
        var j :| 0 <= j < |jobs| && !jobs[j].globFailed && KeyOf(ReplyOf(jobs[j])) == key;
        if j > 0 {
          assert jobs[1..][j - 1] == jobs[j];
          assert key in tail;
        }
      }
      forall key | key in Written(jobs)
        ensures key in all
      {
        if key in tail {
          var j :| 0 <= j < |jobs[1..]| && !jobs[1..][j].globFailed && KeyOf(ReplyOf(jobs[1..][j])) == key;
          assert jobs[j + 1] == jobs[1..][j];
        } else {
          assert !jobs[0].globFailed && key == KeyOf(ReplyOf(jobs[0]));
        }
      }
    }
  }

  /** Without an aborting call the batch succeeds, and its keys are the starting keys
      plus the key of every call made without a glob error; a rejected file among them
      adds "undefined". */
  lemma {:induction false} AggregateKeys(jobs: seq<Job>, partials: Partials)
    requires forall j :: 0 <= j < |jobs| ==> !Aborts(jobs[j])
    ensures Aggregate(jobs, partials).Success?
    ensures Aggregate(jobs, partials).value.Keys
         == partials.Keys + set j | 0 <= j < |jobs| && !jobs[j].globFailed :: KeyOf(ReplyOf(jobs[j]))
  {
    WrittenKeysAdded(jobs, partials);
    WrittenKeys(jobs);
  }

  lemma {:induction false} WrittenKeysAdded(jobs: seq<Job>, partials: Partials)
    requires forall j :: 0 <= j < |jobs| ==> !Aborts(jobs[j])
    ensures Aggregate(jobs, partials).Success?
    ensures Aggregate(jobs, partials).value.Keys == partials.Keys + Written(jobs)
  {
    if jobs != [] {
      var next := if jobs[0].globFailed then partials
                  else partials[KeyOf(ReplyOf(jobs[0])) := ValueOf(ReplyOf(jobs[0]))];
      forall j | 0 <= j < |jobs[1..]|
        ensures !Aborts(jobs[1..][j])
      {
        assert jobs[1..][j] == jobs[j + 1];
      }
      WrittenKeysAdded(jobs[1..], next);
    }
  }

  /** A key no call writes keeps its starting value. */
  lemma {:induction false} UnwrittenKeyKept(jobs: seq<Job>, partials: Partials, key: string)
    requires forall j :: 0 <= j < |jobs| ==> !Aborts(jobs[j])
    requires key in partials
    requires forall j :: 0 <= j < |jobs| && !jobs[j].globFailed ==> KeyOf(ReplyOf(jobs[j])) != key
    ensures Aggregate(jobs, partials).Success?
    ensures key in Aggregate(jobs, partials).value
    ensures Aggregate(jobs, partials).value[key] == partials[key]
  {
    if jobs != [] {
      var next := if jobs[0].globFailed then partials
                  else partials[KeyOf(ReplyOf(jobs[0])) := ValueOf(ReplyOf(jobs[0]))];
      forall j | 0 <= j < |jobs[1..]| && !jobs[1..][j].globFailed
        ensures KeyOf(ReplyOf(jobs[1..][j])) != key
      {
        assert jobs[1..][j] == jobs[j + 1];
      }
      forall j | 0 <= j < |jobs[1..]|
        ensures !Aborts(jobs[1..][j])
      {
        assert jobs[1..][j] == jobs[j + 1];
      }
      UnwrittenKeyKept(jobs[1..], next, key);
    }
  }

  /** Last writer wins: a call made without a glob error leaves its value under its key
      unless a later such call writes the same key; collisions raise no error. */
  lemma {:induction false} LastWriteWins(jobs: seq<Job>, partials: Partials, k: nat)
    requires forall j :: 0 <= j < |jobs| ==> !Aborts(jobs[j])
    requires k < |jobs| && !jobs[k].globFailed
    requires forall j :: k < j < |jobs| && !jobs[j].globFailed ==> KeyOf(ReplyOf(jobs[j])) != KeyOf(ReplyOf(jobs[k]))
    ensures Aggregate(jobs, partials).Success?
    ensures KeyOf(ReplyOf(jobs[k])) in Aggregate(jobs, partials).value
    ensures Aggregate(jobs, partials).value[KeyOf(ReplyOf(jobs[k]))] == ValueOf(ReplyOf(jobs[k]))
  {
    var next := if jobs[0].globFailed then partials
                else partials[KeyOf(ReplyOf(jobs[0])) := ValueOf(ReplyOf(jobs[0]))];
    forall j | 0 <= j < |jobs[1..]|
      ensures !Aborts(jobs[1..][j])
    {
      assert jobs[1..][j] == jobs[j + 1];
    }
    if k == 0 {
      forall j | 0 <= j < |jobs[1..]| && !jobs[1..][j].globFailed
        ensures KeyOf(ReplyOf(jobs[1..][j])) != KeyOf(ReplyOf(jobs[0]))
      {
        assert jobs[1..][j] == jobs[j + 1];
      }
      UnwrittenKeyKept(jobs[1..], next, KeyOf(ReplyOf(jobs[0])));
    } else {
      forall j | k - 1 < j < |jobs[1..]| && !jobs[1..][j].globFailed
        ensures KeyOf(ReplyOf(jobs[1..][j])) != KeyOf(ReplyOf(jobs[1..][k - 1]))
      {
        assert jobs[1..][j] == jobs[j + 1];
      }
      LastWriteWins(jobs[1..], next, k - 1);
    }
  }

  /** Line 138 tests the glob's error, not the parse error: a file rejected while its
      glob reported no error does not end the batch but leaves `undefined` stored under
      "undefined", unless a later call writes that key. */
  lemma RejectedStoresUndefined(jobs: seq<Job>, partials: Partials, k: nat)
    requires forall j :: 0 <= j < |jobs| ==> !Aborts(jobs[j])
    requires k < |jobs| && !jobs[k].globFailed && ReplyOf(jobs[k]).Rejected?
    requires forall j :: k < j < |jobs| && !jobs[j].globFailed ==> KeyOf(ReplyOf(jobs[j])) != UndefinedKey
    ensures Aggregate(jobs, partials).Success?
    ensures UndefinedKey in Aggregate(jobs, partials).value
    ensures Aggregate(jobs, partials).value[UndefinedKey] == None
  {
    LastWriteWins(jobs, partials, k);
  }

  /** Patterns that match no file, and an empty pattern list, give an empty dictionary
      and success (the error argument '' of line 157). */
  lemma {:induction false} NothingMatched(exps: seq<Expansion>)
    requires forall i :: 0 <= i < |exps| ==> exps[i].files == []
    ensures Jobs(exps) == []
    ensures Aggregate(Jobs(exps), map[]) == Success(map[])
  {
    if exps != [] {
      assert JobsOf(exps[0]) == [];
      NothingMatched(exps[1..]);
    }
  }

  /** `Jobs` takes the patterns in order. */
  lemma JobsSplit(exps: seq<Expansion>, i: nat)
    requires i < |exps|
    ensures Jobs(exps[i..]) == JobsOf(exps[i]) + Jobs(exps[i + 1..])
  {
    assert exps[i..][0] == exps[i] && exps[i..][1..] == exps[i + 1..];
  }

  /** The call for file `k` of `e` heads the calls still to come. */
  lemma JobsStep(e: Expansion, k: nat, rest: seq<Job>)
    requires k < |e.files|
    ensures (JobsOf(e)[k..] + rest)[0] == Job(GlobPrefix(e.pattern), e.globFailed, e.files[k])
    ensures (JobsOf(e)[k..] + rest)[1..] == JobsOf(e)[k + 1..] + rest
  {
  }

  /** One unfolding of `Aggregate` for the call `job` at the head of `todo`. */
  lemma AggregateFirst(todo: seq<Job>, partials: Partials, job: Job, reply: Reply)
    requires todo != [] && todo[0] == job && reply == ReplyOf(job)
    ensures job.globFailed && reply.Err() != "" ==> Aggregate(todo, partials) == Failure(reply.Err())
    ensures job.globFailed && reply.Err() == "" ==> Aggregate(todo, partials) == Aggregate(todo[1..], partials)
    ensures !job.globFailed ==> Aggregate(todo, partials) == Aggregate(todo[1..], partials[KeyOf(reply) := ValueOf(reply)])
  {
  }

  /** `parseGlobs` (lines 128-160): for each pattern's expansion, each matched file is
      resolved with the pattern's prefix and stored under its name, unless the glob
      reported an error; the first rejected file under a glob error ends the batch. */
  method ParseGlobs(exps: seq<Expansion>) returns (result: Result<Partials, string>)
    ensures result == Aggregate(Jobs(exps), map[])
  {
    ghost var outcome := Aggregate(Jobs(exps), map[]);
    var partials: Partials := map[];
    for i := 0 to |exps|
      invariant outcome == Aggregate(Jobs(exps[i..]), partials)
    {
      var e := exps[i];
      JobsSplit(exps, i);
      ghost var rest := Jobs(exps[i + 1..]);
      for k := 0 to |e.files|
        invariant outcome == Aggregate(JobsOf(e)[k..] + rest, partials)
      {
        var after := GlobPrefix(e.pattern);
        var file := e.files[k];
        var reply := ParseMustache(file.path, Prefix(after), file.content);
        ghost var todo := JobsOf(e)[k..] + rest;
        JobsStep(e, k, rest);
        AggregateFirst(todo, partials, todo[0], reply);
        if e.globFailed {
          if reply.Err() != "" {
            return Failure(reply.Err());
          }
        } else {
          partials := partials[KeyOf(reply) := ValueOf(reply)];
        }
      }
      assert JobsOf(e)[|e.files|..] + rest == rest;
    }
    assert exps[|exps|..] == [];
    return Success(partials);
  }
}

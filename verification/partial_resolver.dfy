/** `parseMustache` of gulpfile.js: from the path of a `.mustache` file and a strip
    prefix it derives the name under which the file is registered as a partial. */
module PartialResolver {
  import opened JsString

  /** The file kind the loader accepts; it is searched for anywhere in the path. */
  const Extension := ".mustache"

  /** The second argument of `parseMustache` as a caller may pass it. */
  datatype AfterArg =
    | Omitted          // undefined, null or another falsy non-string value
    | Prefix(s: string)
    | CallbackFn       // a function in second position: it is taken as the callback

  /** Lines 97-101: a function or a falsy value becomes the empty prefix. */
  function NormaliseAfter(after: AfterArg): (r: string)
    ensures after.Prefix? ==> r == after.s
    ensures !after.Prefix? ==> r == ""
  {
    match after
    case Prefix(s) => s
    case _ => ""
  }

  /** Every '/' of `s` turned into '_', all at once: the name the one-by-one
      rewriting loop must arrive at. */
  function Underscored(s: string): (r: string)
    ensures |r| == |s|
    ensures '/' !in r
  {
    if s == "" then ""
    else [if s[0] == '/' then '_' else s[0]] + Underscored(s[1..])
  }

  /** Position by position, the rewriting turns '/' into '_' and keeps everything else. */
  lemma {:induction false} UnderscoredAt(s: string)
    ensures forall i :: 0 <= i < |s| && s[i] != '/' ==> Underscored(s)[i] == s[i]
    ensures forall i :: 0 <= i < |s| && s[i] == '/' ==> Underscored(s)[i] == '_'
  {
    if s != "" {
      UnderscoredAt(s[1..]);
      assert forall i :: 1 <= i < |s| ==> Underscored(s)[i] == Underscored(s[1..])[i - 1] && s[i] == s[1..][i - 1];
    }
  }

  /** Lines 116-118: `substr(0, 1) == "_"` drops one leading underscore, no more. */
  function DropLeadingUnderscore(s: string): (r: string)
    ensures |s| > 0 && s[0] == '_' ==> s == "_" + r
    ensures !(|s| > 0 && s[0] == '_') ==> r == s
  {
    if |s| >= 1 && s[..1] == "_" then s[1..] else s
  }

  /** The name that lines 109-118 derive from `path` with strip prefix `after`: it is
      never longer than the path and holds no '/'. */
  function PartialName(path: string, after: string): (r: string)
    ensures |r| <= |path|
    ensures '/' !in r
  {
    DropLeadingUnderscore(Underscored(Replace(Replace(path, Extension, ""), after, "")))
  }

  /** The three arguments `parseMustache` hands to its callback. */
  datatype Reply =
    | Rejected(path: string)                   // callback('Invalid mustache file: ' + path)
    | Resolved(name: string, content: string)  // callback('', name, content)
  {
    /** The error argument: non-empty (truthy) exactly when the file was rejected. */
    function Err(): (e: string)
      ensures e == "" <==> Resolved?
      ensures Rejected? ==> e == "Invalid mustache file: " + path
    {
      match this
      case Rejected(p) => "Invalid mustache file: " + p
      case Resolved(_, _) => ""
    }
  }

  /** What `parseMustache(path, after, callback)` passes to `callback` when reading
      `path` yields `content`. */
  function Resolve(path: string, after: AfterArg, content: string): (r: Reply)
    ensures r.Rejected? ==> r.path == path
    ensures r.Resolved? ==> r.content == content && '/' !in r.name
  {
    if IndexOf(path, Extension) < 0 then Rejected(path)
    else Resolved(PartialName(path, NormaliseAfter(after)), content)
  }

  /** Turning one '/' into '_' keeps the length, removes exactly one '/', and leaves
      the all-at-once rewriting unchanged. */
  lemma SpliceUnderscore(a: string, b: string)
    ensures |a + "_" + b| == |a + "/" + b|
    ensures multiset(a + "_" + b)['/'] == multiset(a + "/" + b)['/'] - 1
    ensures Underscored(a + "_" + b) == Underscored(a + "/" + b)
  {
    var s, r := a + "/" + b, a + "_" + b;
    assert multiset(s) == multiset(a) + multiset{'/'} + multiset(b);
    assert multiset(r) == multiset(a) + multiset{'_'} + multiset(b);
    var us, ur := Underscored(s), Underscored(r);
    UnderscoredAt(s);
    UnderscoredAt(r);
    forall k | 0 <= k < |s|
      ensures ur[k] == us[k]
    {
      if k == |a| {
        assert s[k] == '/' && r[k] == '_';
      } else {
        assert r[k] == s[k];
      }
    }
  }

  /** One pass of the loop at lines 112-114: `replace('/', '_')` rewrites the first '/'. */
  lemma ReplaceSlashStep(s: string)
    requires '/' in s
    ensures |Replace(s, "/", "_")| == |s|
    ensures multiset(Replace(s, "/", "_"))['/'] == multiset(s)['/'] - 1
    ensures Underscored(Replace(s, "/", "_")) == Underscored(s)
  {
    IndexOfChar(s, '/');
    var i := IndexOf(s, "/");
    assert s == s[..i] + "/" + s[i + 1..];
    assert Replace(s, "/", "_") == s[..i] + "_" + s[i + 1..];
    SpliceUnderscore(s[..i], s[i + 1..]);
  }

  /** A string without '/' is left as it is by the rewriting. */
  lemma UnderscoredWithoutSlash(s: string)
    requires '/' !in s
    ensures Underscored(s) == s
  {
    var u := Underscored(s);
    UnderscoredAt(s);
    forall k | 0 <= k < |s|
      ensures u[k] == s[k]
    {
      assert s[k] != '/';
    }
  }

  /** Lines 109-118 step by step: drop the first ".mustache", then the first occurrence
      of `after`, then rewrite one '/' per pass until none is left, then drop one
      leading underscore. */
  method DeriveName(path: string, after: string) returns (name: string)
    ensures name == PartialName(path, after)
    ensures '/' !in name
  {
    name := Replace(path, Extension, "");
    name := Replace(name, after, "");
    ghost var stripped := name;
    while IndexOf(name, "/") >= 0
      invariant |name| == |stripped|
      invariant Underscored(name) == Underscored(stripped)
      decreases multiset(name)['/']
    {
      IndexOfChar(name, '/');
      ReplaceSlashStep(name);
      name := Replace(name, "/", "_");
    }
    IndexOfChar(name, '/');
    UnderscoredWithoutSlash(name);
    if |name| >= 1 && name[..1] == "_" {
      name := name[1..];
    }
  }

  /** `parseMustache` (lines 96-126) with the file's text given as `content`. */
  method ParseMustache(path: string, after: AfterArg, content: string) returns (reply: Reply)
    ensures reply == Resolve(path, after, content)
  {
    var prefix := NormaliseAfter(after);
    if IndexOf(path, Extension) < 0 {
      return Rejected(path);
    }
    var name := DeriveName(path, prefix);
    reply := Resolved(name, content);
  }

  /** Line 105: a file is rejected exactly when ".mustache" occurs nowhere in its
      path; it need not end the path. */
  lemma RejectedIffNoExtension(path: string, after: AfterArg, content: string)
    ensures Resolve(path, after, content).Rejected? <==> forall i :: !OccursAt(path, Extension, i)
  {
    IndexOfFinds(path, Extension);
  }

  /** Only the first ".mustache" is removed: whatever follows it, later copies included,
      stays in the name. */
  lemma StripsFirstExtensionOnly(a: string, b: string, after: string)
    requires forall j :: 0 <= j < |a| ==> !OccursAt(a + Extension + b, Extension, j)
    ensures PartialName(a + Extension + b, after) == DropLeadingUnderscore(Underscored(Replace(a + b, after, "")))
  {
    ReplaceFirstOccurrence(a, Extension, b, "");
    assert a + "" + b == a + b;
  }

  /** Only the first occurrence of the strip prefix is removed, wherever it sits; an
      empty or falsy prefix removes nothing. */
  lemma StripsFirstPrefixOnly(path: string, a: string, b: string, after: AfterArg, content: string)
    requires IndexOf(path, Extension) >= 0
    requires Replace(path, Extension, "") == a + NormaliseAfter(after) + b
    requires forall j :: 0 <= j < |a| ==> !OccursAt(a + NormaliseAfter(after) + b, NormaliseAfter(after), j)
    ensures Resolve(path, after, content) == Resolved(DropLeadingUnderscore(Underscored(a + b)), content)
    ensures NormaliseAfter(after) == "" ==>
      Resolve(path, after, content) == Resolved(DropLeadingUnderscore(Underscored(Replace(path, Extension, ""))), content)
  {
    ReplaceFirstOccurrence(a, NormaliseAfter(after), b, "");
    assert a + "" + b == a + b;
  }

  /** The characters of the extension that the naming steps look at. */
  lemma ExtensionCharacters()
    ensures Extension[0] == '.' && '/' !in Extension && '_' !in Extension
  {
  }

  /** A path whose first ".mustache" follows `a` is accepted. */
  lemma AcceptedAt(a: string, b: string)
    requires '.' !in a
    ensures IndexOf(a + Extension + b, Extension) == |a|
    ensures forall j :: 0 <= j < |a| ==> !OccursAt(a + Extension + b, Extension, j)
  {
    var path := a + Extension + b;
    assert path[..|a|] == a;
    NoOccurrenceBefore(path, Extension, |a|);
    assert path[|a|..|a| + |Extension|] == Extension;
    assert OccursAt(path, Extension, |a|);
    IndexOfFinds(path, Extension);
  }

  /** A path that ends in its only ".mustache" is accepted, and its name is what the
      later steps make of the text before the extension. */
  lemma StemName(a: string, after: string)
    requires forall j :: 0 <= j < |a| ==> !OccursAt(a + Extension, Extension, j)
    ensures IndexOf(a + Extension, Extension) == |a|
    ensures PartialName(a + Extension, after) == DropLeadingUnderscore(Underscored(Replace(a, after, "")))
  {
    var path := a + Extension;
    assert path[|a|..|a| + |Extension|] == Extension;
    assert OccursAt(path, Extension, |a|);
    IndexOfFinds(path, Extension);
    assert path + "" == path && a + "" == a;
    StripsFirstExtensionOnly(a, "", after);
  }

  /** A stem without '.' holds no ".mustache" of its own. */
  lemma DotFreeStem(a: string)
    requires '.' !in a
    ensures forall j :: 0 <= j < |a| ==> !OccursAt(a + Extension, Extension, j)
  {
    assert a + Extension + "" == a + Extension;
    AcceptedAt(a, "");
  }

  /** A one-level relative path `dir/file` is named `dir_file` when `dir` does not start
      with '_'. */
  lemma FlatName(dir: string, file: string)
    requires '/' !in dir && '/' !in file && dir != "" && dir[0] != '_'
    ensures DropLeadingUnderscore(Underscored(dir + "/" + file)) == dir + "_" + file
  {
    SpliceUnderscore(dir, file);
    var flat := dir + "_" + file;
    assert '/' !in flat;
    UnderscoredWithoutSlash(flat);
    assert flat[0] == dir[0];
  }

  /** A file `_file` is named `file`. */
  lemma LeadingUnderscoreName(file: string)
    requires '/' !in file
    ensures DropLeadingUnderscore(Underscored("_" + file)) == file
  {
    assert '/' !in "_" + file;
    UnderscoredWithoutSlash("_" + file);
    assert ("_" + file)[1..] == file;
  }

  /** The extension need not end the path: "x.mustache/y" is accepted, and the text
      after the extension stays in the name, its '/' rewritten. */
  lemma ExtensionInsidePath(x: string, y: string)
    requires '.' !in x && '/' !in x && '/' !in y && x != "" && x[0] != '_'
    ensures IndexOf(x + Extension + "/" + y, Extension) >= 0
    ensures PartialName(x + Extension + "/" + y, "") == x + "_" + y
  {
    assert x + Extension + ("/" + y) == x + Extension + "/" + y;
    AcceptedAt(x, "/" + y);
    StripsFirstExtensionOnly(x, "/" + y, "");
    assert x + ("/" + y) == x + "/" + y;
    ReplaceEmpty(x + "/" + y);
    FlatName(x, y);
  }

  /** A second copy of the extension stays in the name. */
  lemma SecondExtensionKept(x: string)
    requires '.' !in x && '/' !in x && (x == "" || x[0] != '_')
    ensures IndexOf(x + Extension + Extension, Extension) >= 0
    ensures PartialName(x + Extension + Extension, "") == x + Extension
  {
    var kept := x + Extension;
    AcceptedAt(x, Extension);
    StripsFirstExtensionOnly(x, Extension, "");
    ReplaceEmpty(kept);
    ExtensionCharacters();
    UnderscoredWithoutSlash(kept);
    assert kept[0] != '_';
  }

  /** Only one leading underscore is dropped: "__x.mustache" is named "_x", and dropping
      once more would change that, so the step is not idempotent. */
  lemma OneUnderscoreDropped(x: string)
    requires '.' !in x && '/' !in x
    ensures IndexOf("__" + x + Extension, Extension) >= 0
    ensures PartialName("__" + x + Extension, "") == "_" + x
    ensures DropLeadingUnderscore(PartialName("__" + x + Extension, "")) != PartialName("__" + x + Extension, "")
  {
    var stem := "__" + x;
    DotFreeStem(stem);
    StemName(stem, "");
    ReplaceEmpty(stem);
    assert stem == "_" + ("_" + x);
    LeadingUnderscoreName("_" + x);
    assert |DropLeadingUnderscore("_" + x)| < |"_" + x|;
  }

  /** A path without ".mustache" is rejected. */
  lemma NotesRejected(c: string)
    ensures Resolve("notes.txt", Omitted, c) == Rejected("notes.txt")
  {
    var notes := "notes.txt";
    assert notes[0] != Extension[0];
    assert IndexFrom(notes, Extension, 1) == -1;
    assert IndexOf(notes, Extension) == -1;
  }
}

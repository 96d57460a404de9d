/**
 * The merge fold of `merge` (src/commands/merge.ts:52-111): files in argument
 * order, lines in file order, into one insertion-ordered dictionary, with a
 * conflict record for every re-declaration that disagrees with the current
 * value. The interactive conflict prompt is replaced by a script of answers.
 */
module EnvMerge {
  import opened Results
  import opened EnvText
  import opened OrderedDict

  /** One parsed line: its key and value, and the file argument it was read from. */
  datatype Decl = Decl(key: string, value: string, from: string)

  /** `{ key, oldVal, newVal, from }` as pushed onto `conflicts`. */
  datatype Conflict = Conflict(key: string, oldVal: string, newVal: string, from: string)

  /** The merged dictionary `obj` and the `conflicts` list. */
  datatype MergeState = MergeState(env: Dict<string>, conflicts: seq<Conflict>)

  /**
   * Why a merge produces no output: an input file does not exist, the
   * conflict prompt failed (here: the script of answers ran out), or the
   * user declined to overwrite the output file.
   */
  datatype MergeError = FileNotFound(path: string) | PromptFailed | Cancelled

  function Initial(): MergeState
  {
    MergeState(Empty(), [])
  }

  /** A declaration that takes part in the merge: both key and value are non-empty (`if (key && value)`). */
  predicate Counts(t: Decl)
  {
    t.key != "" && t.value != ""
  }

  /** The pairs of one file, labelled with the file argument. */
  function Tag(ps: seq<(string, string)>, from: string): (r: seq<Decl>)
    ensures |r| == |ps|
  {
    seq(|ps|, i requires 0 <= i < |ps| => Decl(ps[i].0, ps[i].1, from))
  }

  /**
   * One line of the fold. A key that is absent (or holds nothing) is stored;
   * the same value again changes nothing; a different value asks the next
   * scripted answer `choices[|s.conflicts|]` (true keeps the existing
   * value), records the conflict and stores the answer.
   */
  function Absorb(s: MergeState, t: Decl, choices: seq<bool>): Result<MergeState, MergeError>
  {
    if !Counts(t) then Ok(s)
    else if t.key in s.env.vals && s.env.vals[t.key] != "" && s.env.vals[t.key] != t.value then
      if |s.conflicts| < |choices| then
        var existing := s.env.vals[t.key];
        var choice := if choices[|s.conflicts|] then existing else t.value;
        Ok(MergeState(Put(s.env, t.key, choice), s.conflicts + [Conflict(t.key, existing, t.value, t.from)]))
      else
        Err(PromptFailed)
    else
      Ok(MergeState(Put(s.env, t.key, t.value), s.conflicts))
  }

  /**
   * What one line does to the merge: a line whose key or value is empty
   * changes nothing; a key that is absent (or holds nothing) takes the value
   * without a conflict, a new key going to the end of the order; the same
   * value again changes nothing; a different value records exactly one
   * conflict (the key, the value held, the value read, the file) whatever the
   * answer, keeps the key in place and stores the held value or the new one,
   * as answered. Only running out of answers makes the step fail.
   */
  lemma AbsorbCases(s: MergeState, t: Decl, choices: seq<bool>)
    requires Valid(s.env)
    ensures !Counts(t) ==> Absorb(s, t, choices) == Ok(s)
    ensures Counts(t) && (t.key !in s.env.vals || s.env.vals[t.key] == "") ==>
      && Absorb(s, t, choices).Ok?
      && Absorb(s, t, choices).value.conflicts == s.conflicts
      && Absorb(s, t, choices).value.env.vals == s.env.vals[t.key := t.value]
      && Absorb(s, t, choices).value.env.keys == if t.key in s.env.vals then s.env.keys else s.env.keys + [t.key]
    ensures Counts(t) && t.key in s.env.vals && s.env.vals[t.key] == t.value ==> Absorb(s, t, choices) == Ok(s)
    ensures Counts(t) && t.key in s.env.vals && s.env.vals[t.key] != "" && s.env.vals[t.key] != t.value ==>
      && (Absorb(s, t, choices).Err? <==> |choices| <= |s.conflicts|)
      && (Absorb(s, t, choices).Err? ==> Absorb(s, t, choices).error == PromptFailed)
      && (Absorb(s, t, choices).Ok? ==>
            && Absorb(s, t, choices).value.conflicts == s.conflicts + [Conflict(t.key, s.env.vals[t.key], t.value, t.from)]
            && Absorb(s, t, choices).value.env.keys == s.env.keys
            && Absorb(s, t, choices).value.env.vals.Keys == s.env.vals.Keys
            && (forall k :: k in s.env.vals && k != t.key ==> Absorb(s, t, choices).value.env.vals[k] == s.env.vals[k])
            && Absorb(s, t, choices).value.env.vals[t.key] in {s.env.vals[t.key], t.value}
            && (Absorb(s, t, choices).value.env.vals[t.key] == s.env.vals[t.key] <==> choices[|s.conflicts|]))
  {
    if Counts(t) && t.key in s.env.vals && s.env.vals[t.key] == t.value {
      assert s.env.vals[t.key := t.value] == s.env.vals;
    }
  }

  /** The fold over a sequence of declarations, stopping at the first error. */
  function AbsorbAll(s: MergeState, ts: seq<Decl>, choices: seq<bool>): Result<MergeState, MergeError>
  {
    if ts == [] then Ok(s)
    else
      match AbsorbAll(s, ts[..|ts| - 1], choices)
      case Err(e) => Err(e)
      case Ok(s') => Absorb(s', ts[|ts| - 1], choices)
  }

  /** The fold over the files: a file that does not exist aborts the merge when its turn comes. */
  function MergeFiles(files: seq<EnvFile>, choices: seq<bool>): Result<MergeState, MergeError>
  {
    if files == [] then Ok(Initial())
    else
      match MergeFiles(files[..|files| - 1], choices)
      case Err(e) => Err(e)
      case Ok(s) =>
        var f := files[|files| - 1];
        if f.pairs.None? then Err(FileNotFound(f.path))
        else AbsorbAll(s, Tag(f.pairs.value, f.path), choices)
  }

  /** The declarations of all the files that exist, in processing order. */
  function Stream(files: seq<EnvFile>): seq<Decl>
  {
    if files == [] then []
    else
      var f := files[|files| - 1];
      Stream(files[..|files| - 1]) + (if f.pairs.Some? then Tag(f.pairs.value, f.path) else [])
  }

  /** The keys of the declarations that count, in processing order (with repetitions). */
  function DeclaredKeys(ts: seq<Decl>): (r: seq<string>)
    ensures forall k :: k in r <==> exists j :: 0 <= j < |ts| && Counts(ts[j]) && ts[j].key == k
  {
    if ts == [] then []
    else
      var pre := ts[..|ts| - 1];
      var t := ts[|ts| - 1];
      DeclaredKeys(pre) + (if Counts(t) then [t.key] else [])
  }

  /** Some declaration that counts gives key `k` the value `v`. */
  ghost predicate Declares(ts: seq<Decl>, k: string, v: string)
  {
    exists j :: 0 <= j < |ts| && Counts(ts[j]) && ts[j].key == k && ts[j].value == v
  }

  /** No two declarations that count give one key two different values. */
  ghost predicate Agree(ts: seq<Decl>)
  {
    forall i, j :: 0 <= i < j < |ts| && Counts(ts[i]) && Counts(ts[j]) && ts[i].key == ts[j].key ==> ts[i].value == ts[j].value
  }

  // ---------------------------------------------------------------------------
  // The imperative merge loops, proved against MergeFiles.
  // ---------------------------------------------------------------------------

  /**
   * src/commands/merge.ts:66-110: the loop over the clean lines of one file,
   * which splits each line, fills `obj` and pushes onto `conflicts`; returns
   * as soon as the prompt fails.
   */
  method AbsorbLines(s: MergeState, lines: seq<string>, from: string, choices: seq<bool>)
    returns (r: Result<MergeState, MergeError>)
    ensures r == AbsorbAll(s, Tag(Pairs(lines), from), choices)
  {
    var obj := s.env;
    var conflicts := s.conflicts;
    var m := 0;
    ghost var done: seq<Decl> := [];
    while m < |lines|
      invariant m <= |lines|
      invariant done == Tag(Pairs(lines[..m]), from)
      invariant AbsorbAll(s, done, choices) == Ok(MergeState(obj, conflicts))
    {
      var line := lines[m];
      TagPairsStep(lines, m, from);
      ghost var next := Tag(Pairs(lines[..m + 1]), from);
      match ParseLine(line) {
        case None =>
          assert done == next;
        case Some(kv) =>
          var key := kv.0;
          var value := kv.1;
          var t := Decl(key, value, from);
          AbsorbSnoc(s, done, t, choices);
          done := done + [t];
          assert done == next;
          if key != "" && value != "" {
            if key in obj.vals && obj.vals[key] != "" && obj.vals[key] != value {
              if |conflicts| >= |choices| {
                AbsorbLinesAbort(s, lines, m + 1, from, choices);
                return Err(PromptFailed);
              }
              var choice := if choices[|conflicts|] then obj.vals[key] else value;
              conflicts := conflicts + [Conflict(key, obj.vals[key], value, from)];
              obj := Put(obj, key, choice);
            } else {
              obj := Put(obj, key, value);
            }
          }
      }
      m := m + 1;
    }
    assert lines[..m] == lines;
    r := Ok(MergeState(obj, conflicts));
  }

  /**
   * src/commands/merge.ts:52-111: the loop over the files in argument order;
   * a file that does not exist ends the merge with an error when its turn
   * comes, and so does a failed prompt.
   */
  method Merge(files: seq<Source>, choices: seq<bool>) returns (r: Result<MergeState, MergeError>)
    ensures r == MergeFiles(LoadAll(files), choices)
  {
    ghost var loaded := LoadAll(files);
    var state := Initial();
    var n := 0;
    while n < |files|
      invariant n <= |files|
      invariant MergeFiles(loaded[..n], choices) == Ok(state)
    {
      var file := files[n];
      MergeStep(loaded, n, state, choices);
      assert loaded[n] == Load(file);
      if file.text.None? {
        MergeAbortsEarly(loaded, n + 1, choices);
        return Err(FileNotFound(file.path));
      }
      var lines := CleanLines(file.text.value);
      var step := AbsorbLines(state, lines, file.path, choices);
      if step.Err? {
        MergeAbortsEarly(loaded, n + 1, choices);
        return step;
      }
      state := step.value;
      n := n + 1;
    }
    assert loaded[..n] == loaded;
    r := Ok(state);
  }

  /** One more file: it aborts the merge if it is missing, and is absorbed otherwise. */
  lemma MergeStep(files: seq<EnvFile>, n: nat, s: MergeState, choices: seq<bool>)
    requires n < |files| && MergeFiles(files[..n], choices) == Ok(s)
    ensures files[n].pairs.None? ==> MergeFiles(files[..n + 1], choices) == Err(FileNotFound(files[n].path))
    ensures files[n].pairs.Some? ==>
      MergeFiles(files[..n + 1], choices) == AbsorbAll(s, Tag(files[n].pairs.value, files[n].path), choices)
  {
    assert files[..n + 1][..n] == files[..n];
  }


  /** One more line adds its parsed pair, if any, to the declarations. */
  lemma TagPairsStep(lines: seq<string>, m: nat, from: string)
    requires m < |lines|
    ensures ParseLine(lines[m]).None? ==> Tag(Pairs(lines[..m + 1]), from) == Tag(Pairs(lines[..m]), from)
    ensures ParseLine(lines[m]).Some? ==>
      var kv := ParseLine(lines[m]).value;
      Tag(Pairs(lines[..m + 1]), from) == Tag(Pairs(lines[..m]), from) + [Decl(kv.0, kv.1, from)]
  {
    assert lines[..m + 1][..m] == lines[..m];
    var ps := Pairs(lines[..m]);
    if ParseLine(lines[m]).None? {
      assert Pairs(lines[..m + 1]) == ps + [];
      assert ps + [] == ps;
    } else {
      var kv := ParseLine(lines[m]).value;
      assert Pairs(lines[..m + 1]) == ps + [kv];
    }
  }

  /** Folding one more declaration is one more `Absorb` step. */
  lemma AbsorbSnoc(s: MergeState, ts: seq<Decl>, t: Decl, choices: seq<bool>)
    ensures AbsorbAll(s, ts + [t], choices) ==
      match AbsorbAll(s, ts, choices)
      case Err(e) => Err(e)
      case Ok(s') => Absorb(s', t, choices)
  {
    assert (ts + [t])[..|ts|] == ts;
  }

  /** A prompt failure in the first `m` lines of a file is the result of the whole file. */
  lemma AbsorbLinesAbort(s: MergeState, lines: seq<string>, m: nat, from: string, choices: seq<bool>)
    requires m <= |lines|
    requires AbsorbAll(s, Tag(Pairs(lines[..m]), from), choices).Err?
    ensures AbsorbAll(s, Tag(Pairs(lines), from), choices) == AbsorbAll(s, Tag(Pairs(lines[..m]), from), choices)
  {
    PairsPrefix(lines, m);
    var all := Tag(Pairs(lines), from);
    var k := |Pairs(lines[..m])|;
    assert Tag(Pairs(lines[..m]), from) == all[..k];
    AbsorbAbortsEarly(s, all, k, choices);
  }

  /** The pairs of a prefix of the lines are a prefix of the pairs. */
  lemma {:induction false} PairsPrefix(lines: seq<string>, k: nat)
    requires k <= |lines|
    ensures |Pairs(lines[..k])| <= |Pairs(lines)|
    ensures Pairs(lines[..k]) == Pairs(lines)[..|Pairs(lines[..k])|]
  {
    if k < |lines| {
      var pre := lines[..|lines| - 1];
      assert pre[..k] == lines[..k];
      PairsPrefix(pre, k);
    } else {
      assert lines[..k] == lines;
    }
  }

  /** Once a prefix of the declarations fails, the fold fails the same way: later lines are never read. */
  lemma {:induction false} AbsorbAbortsEarly(s: MergeState, ts: seq<Decl>, k: nat, choices: seq<bool>)
    requires k <= |ts|
    requires AbsorbAll(s, ts[..k], choices).Err?
    ensures AbsorbAll(s, ts, choices) == AbsorbAll(s, ts[..k], choices)
  {
    if k < |ts| {
      var pre := ts[..|ts| - 1];
      assert pre[..k] == ts[..k];
      AbsorbAbortsEarly(s, pre, k, choices);
    } else {
      assert ts[..k] == ts;
    }
  }

  /** Once the merge of the first `k` files fails, the whole merge fails the same way: later files are never examined. */
  lemma {:induction false} MergeAbortsEarly(files: seq<EnvFile>, k: nat, choices: seq<bool>)
    requires k <= |files|
    requires MergeFiles(files[..k], choices).Err?
    ensures MergeFiles(files, choices) == MergeFiles(files[..k], choices)
  {
    if k < |files| {
      var pre := files[..|files| - 1];
      assert pre[..k] == files[..k];
      MergeAbortsEarly(pre, k, choices);
    } else {
      assert files[..k] == files;
    }
  }

  // ---------------------------------------------------------------------------
  // From files to one stream of declarations.
  // ---------------------------------------------------------------------------

  /** Folding two sequences one after the other is folding their concatenation. */
  lemma {:induction false} AbsorbAllAppend(s: MergeState, a: seq<Decl>, b: seq<Decl>, choices: seq<bool>)
    ensures AbsorbAll(s, a + b, choices) ==
      match AbsorbAll(s, a, choices)
      case Err(e) => Err(e)
      case Ok(t) => AbsorbAll(t, b, choices)
  {
    if b == [] {
      assert a + b == a;
    } else {
      var b' := b[..|b| - 1];
      assert (a + b)[..|a + b| - 1] == a + b';
      assert (a + b)[|a + b| - 1] == b[|b| - 1];
      AbsorbAllAppend(s, a, b', choices);
    }
  }

  /** A merge that succeeds found every one of its files. */
  lemma {:induction false} MergeOkFoundAll(files: seq<EnvFile>, choices: seq<bool>)
    requires MergeFiles(files, choices).Ok?
    ensures forall i :: 0 <= i < |files| ==> files[i].pairs.Some?
  {
    if files != [] {
      var pre := files[..|files| - 1];
      MergeOkFoundAll(pre, choices);
      forall i | 0 <= i < |pre| ensures files[i].pairs.Some? {
        assert files[i] == pre[i];
      }
    }
  }

  /** When every file exists, the merge is the fold of one stream of declarations from the empty state. */
  lemma {:induction false} MergeIsStreamFold(files: seq<EnvFile>, choices: seq<bool>)
    requires forall i :: 0 <= i < |files| ==> files[i].pairs.Some?
    ensures MergeFiles(files, choices) == AbsorbAll(Initial(), Stream(files), choices)
  {
    if files != [] {
      var pre := files[..|files| - 1];
      var f := files[|files| - 1];
      MergeIsStreamFold(pre, choices);
      AbsorbAllAppend(Initial(), Stream(pre), Tag(f.pairs.value, f.path), choices);
    }
  }

  /**
   * Every declaration of the stream comes from a pair of an input file: its
   * `from` is that file's argument and it carries that pair's key and value.
   */
  lemma {:induction false} StreamOrigin(files: seq<EnvFile>)
    ensures forall t :: t in Stream(files) ==>
      exists i :: 0 <= i < |files| && files[i].path == t.from && files[i].pairs.Some? &&
                  (t.key, t.value) in files[i].pairs.value
  {
    if files != [] {
      var pre := files[..|files| - 1];
      var f := files[|files| - 1];
      StreamOrigin(pre);
      forall t | t in Stream(files)
        ensures exists i :: 0 <= i < |files| && files[i].path == t.from && files[i].pairs.Some? &&
                            (t.key, t.value) in files[i].pairs.value
      {
        if t in Stream(pre) {
          var i :| 0 <= i < |pre| && pre[i].path == t.from && pre[i].pairs.Some? && (t.key, t.value) in pre[i].pairs.value;
          assert files[i] == pre[i];
        } else {
          var ps := f.pairs.value;
          var j :| 0 <= j < |ps| && Tag(ps, f.path)[j] == t;
          assert ps[j] == (t.key, t.value);
          assert files[|files| - 1] == f;
        }
      }
    }
  }

  /** Every pair of every input file that exists is in the stream, labelled with that file's argument. */
  lemma {:induction false} StreamCovers(files: seq<EnvFile>)
    ensures forall i, j :: 0 <= i < |files| && files[i].pairs.Some? && 0 <= j < |files[i].pairs.value| ==>
      Decl(files[i].pairs.value[j].0, files[i].pairs.value[j].1, files[i].path) in Stream(files)
  {
    if files != [] {
      var pre := files[..|files| - 1];
      var f := files[|files| - 1];
      StreamCovers(pre);
      forall i, j | 0 <= i < |files| && files[i].pairs.Some? && 0 <= j < |files[i].pairs.value|
        ensures Decl(files[i].pairs.value[j].0, files[i].pairs.value[j].1, files[i].path) in Stream(files)
      {
        if i < |pre| {
          assert files[i] == pre[i];
        } else {
          assert Tag(f.pairs.value, f.path)[j] == Decl(files[i].pairs.value[j].0, files[i].pairs.value[j].1, files[i].path);
        }
      }
    }
  }

  /** Within one file's lines the only way to fail is a failed prompt. */
  lemma {:induction false} AbsorbOnlyPromptFails(s: MergeState, ts: seq<Decl>, choices: seq<bool>)
    ensures AbsorbAll(s, ts, choices).Err? ==> AbsorbAll(s, ts, choices).error == PromptFailed
  {
    if ts != [] {
      AbsorbOnlyPromptFails(s, ts[..|ts| - 1], choices);
    }
  }

  /** A merge fails only for a missing file or a failed prompt; it never cancels by itself. */
  lemma {:induction false} MergeErrors(files: seq<EnvFile>, choices: seq<bool>)
    ensures MergeFiles(files, choices).Err? ==>
      MergeFiles(files, choices).error.FileNotFound? || MergeFiles(files, choices).error == PromptFailed
  {
    if files != [] {
      var pre := files[..|files| - 1];
      var f := files[|files| - 1];
      MergeErrors(pre, choices);
      if MergeFiles(pre, choices).Ok? && f.pairs.Some? {
        AbsorbOnlyPromptFails(MergeFiles(pre, choices).value, Tag(f.pairs.value, f.path), choices);
      }
    }
  }

  /** The declarations of a file whose pairs all count are its keys, in order. */
  lemma {:induction false} DeclaredKeysAllCount(ts: seq<Decl>)
    requires forall j :: 0 <= j < |ts| ==> Counts(ts[j])
    ensures |DeclaredKeys(ts)| == |ts|
    ensures forall j :: 0 <= j < |ts| ==> DeclaredKeys(ts)[j] == ts[j].key
  {
    if ts != [] {
      DeclaredKeysAllCount(ts[..|ts| - 1]);
    }
  }

  /**
   * A merge that ends with FileNotFound(p) names the first missing file: p
   * is its argument, and all files before it exist and were merged without
   * error. (A failed prompt in an earlier file ends the merge first.)
   */
  lemma {:induction false} MergeNotFoundIsFirstMissing(files: seq<EnvFile>, choices: seq<bool>, p: string)
    requires MergeFiles(files, choices) == Err(FileNotFound(p))
    ensures exists i ::
      && 0 <= i < |files| && files[i].pairs.None? && files[i].path == p
      && (forall j :: 0 <= j < i ==> files[j].pairs.Some?) && MergeFiles(files[..i], choices).Ok?
  {
    var pre := files[..|files| - 1];
    var f := files[|files| - 1];
    if MergeFiles(pre, choices).Err? {
      MergeNotFoundIsFirstMissing(pre, choices, p);
      var i :| 0 <= i < |pre| && pre[i].pairs.None? && pre[i].path == p &&
        (forall j :: 0 <= j < i ==> pre[j].pairs.Some?) && MergeFiles(pre[..i], choices).Ok?;
      assert files[..i] == pre[..i];
      assert forall j :: 0 <= j <= i ==> files[j] == pre[j];
    } else {
      MergeOkFoundAll(pre, choices);
      if f.pairs.Some? {
        AbsorbOnlyPromptFails(MergeFiles(pre, choices).value, Tag(f.pairs.value, f.path), choices);
      }
      assert forall j :: 0 <= j < |pre| ==> files[j] == pre[j];
      assert files[..|files| - 1] == pre;
    }
  }

  /** When the files before the first missing one merge without error, the merge stops there with FileNotFound. */
  lemma MergeStopsAtMissingFile(files: seq<EnvFile>, i: nat, choices: seq<bool>)
    requires i < |files| && files[i].pairs.None?
    requires MergeFiles(files[..i], choices).Ok?
    ensures MergeFiles(files, choices) == Err(FileNotFound(files[i].path))
  {
    assert files[..i + 1][..i] == files[..i];
    MergeAbortsEarly(files, i + 1, choices);
  }

  // ---------------------------------------------------------------------------
  // Properties of the fold over a stream.
  // ---------------------------------------------------------------------------

  /**
   * After every successful fold from the empty state the dictionary is well
   * formed and its keys are the declared keys in the order of their first
   * declaration: resolving a conflict never moves a key.
   */
  lemma {:induction false} FoldKeys(ts: seq<Decl>, choices: seq<bool>)
    requires AbsorbAll(Initial(), ts, choices).Ok?
    ensures Valid(AbsorbAll(Initial(), ts, choices).value.env)
    ensures AbsorbAll(Initial(), ts, choices).value.env.keys == FirstSeen(DeclaredKeys(ts))
  {
    if ts != [] {
      var pre := ts[..|ts| - 1];
      var t := ts[|ts| - 1];
      FoldKeys(pre, choices);
      var s := AbsorbAll(Initial(), pre, choices).value;
      if Counts(t) {
        assert DeclaredKeys(ts) == DeclaredKeys(pre) + [t.key];
        assert t.key in FirstSeen(DeclaredKeys(pre)) <==> t.key in s.env.vals;
      } else {
        assert DeclaredKeys(ts) == DeclaredKeys(pre);
      }
    }
  }

  /** After every successful fold from the empty state each key holds a value that some declaration gave it. */
  lemma {:induction false} FoldValues(ts: seq<Decl>, choices: seq<bool>)
    requires AbsorbAll(Initial(), ts, choices).Ok?
    ensures forall k :: k in AbsorbAll(Initial(), ts, choices).value.env.vals ==>
      Declares(ts, k, AbsorbAll(Initial(), ts, choices).value.env.vals[k])
  {
    if ts != [] {
      var pre := ts[..|ts| - 1];
      var t := ts[|ts| - 1];
      FoldValues(pre, choices);
      var s := AbsorbAll(Initial(), pre, choices).value;
      var s2 := AbsorbAll(Initial(), ts, choices).value;
      assert Absorb(s, t, choices) == Ok(s2);
      forall k | k in s2.env.vals ensures Declares(ts, k, s2.env.vals[k]) {
        if Counts(t) && k == t.key && s2.env.vals[k] == t.value {
          assert ts[|ts| - 1] == t;
        } else {
          assert k in s.env.vals && s2.env.vals[k] == s.env.vals[k];
          var j :| 0 <= j < |pre| && Counts(pre[j]) && pre[j].key == k && pre[j].value == s.env.vals[k];
          assert ts[j] == pre[j];
        }
      }
    }
  }

  /**
   * After every successful fold from the empty state there is at most one
   * conflict per scripted answer, and every conflict pairs a value declared
   * for its key with a different, non-empty value declared by a line of `from`.
   */
  lemma {:induction false} FoldConflicts(ts: seq<Decl>, choices: seq<bool>)
    requires AbsorbAll(Initial(), ts, choices).Ok?
    ensures |AbsorbAll(Initial(), ts, choices).value.conflicts| <= |choices|
    ensures forall x :: x in AbsorbAll(Initial(), ts, choices).value.conflicts ==>
      x.oldVal != x.newVal && Declares(ts, x.key, x.oldVal) &&
      Counts(Decl(x.key, x.newVal, x.from)) && Decl(x.key, x.newVal, x.from) in ts
  {
    if ts != [] {
      var pre := ts[..|ts| - 1];
      var t := ts[|ts| - 1];
      FoldConflicts(pre, choices);
      FoldValues(pre, choices);
      var s := AbsorbAll(Initial(), pre, choices).value;
      var s2 := AbsorbAll(Initial(), ts, choices).value;
      assert Absorb(s, t, choices) == Ok(s2);
      forall x | x in s2.conflicts
        ensures x.oldVal != x.newVal && Declares(ts, x.key, x.oldVal)
        ensures Counts(Decl(x.key, x.newVal, x.from)) && Decl(x.key, x.newVal, x.from) in ts
      {
        if x in s.conflicts {
          var j :| 0 <= j < |pre| && Counts(pre[j]) && pre[j].key == x.key && pre[j].value == x.oldVal;
          assert ts[j] == pre[j];
          assert Decl(x.key, x.newVal, x.from) in pre;
        } else {
          assert x == Conflict(t.key, s.env.vals[t.key], t.value, t.from);
          var j :| 0 <= j < |pre| && Counts(pre[j]) && pre[j].key == x.key && pre[j].value == x.oldVal;
          assert ts[j] == pre[j];
          assert ts[|ts| - 1] == t;
        }
      }
    }
  }

  /** Conflict `x` pairs a value some counting declaration gave its key with the declaration `x.from` made later. */
  ghost predicate RaisedBy(ts: seq<Decl>, x: Conflict)
  {
    exists a, b :: 0 <= a < b < |ts| && Counts(ts[a]) && ts[a].key == x.key && ts[a].value == x.oldVal &&
                   ts[b] == Decl(x.key, x.newVal, x.from)
  }

  /**
   * After every successful fold from the empty state, each conflict's old
   * value was declared for its key before the declaration that raised it.
   */
  lemma {:induction false} FoldConflictsOrdered(ts: seq<Decl>, choices: seq<bool>)
    requires AbsorbAll(Initial(), ts, choices).Ok?
    ensures forall x :: x in AbsorbAll(Initial(), ts, choices).value.conflicts ==> RaisedBy(ts, x)
  {
    if ts != [] {
      var pre := ts[..|ts| - 1];
      var t := ts[|ts| - 1];
      FoldConflictsOrdered(pre, choices);
      FoldValues(pre, choices);
      var s := AbsorbAll(Initial(), pre, choices).value;
      var s2 := AbsorbAll(Initial(), ts, choices).value;
      assert Absorb(s, t, choices) == Ok(s2);
      forall x | x in s2.conflicts ensures RaisedBy(ts, x) {
        if x in s.conflicts {
          assert RaisedBy(pre, x);
          var a, b :| 0 <= a < b < |pre| && Counts(pre[a]) && pre[a].key == x.key && pre[a].value == x.oldVal &&
                      pre[b] == Decl(x.key, x.newVal, x.from);
          assert ts[a] == pre[a] && ts[b] == pre[b];
        } else {
          assert x == Conflict(t.key, s.env.vals[t.key], t.value, t.from);
          var a :| 0 <= a < |pre| && Counts(pre[a]) && pre[a].key == x.key && pre[a].value == x.oldVal;
          assert ts[a] == pre[a];
          assert ts[|ts| - 1] == Decl(x.key, x.newVal, x.from);
        }
      }
    }
  }

  /** When the declarations agree, a successful fold records no conflict and holds every declaration as written. */
  lemma {:induction false} AgreeKeepsAll(ts: seq<Decl>, choices: seq<bool>)
    requires AbsorbAll(Initial(), ts, choices).Ok?
    requires Agree(ts)
    ensures AbsorbAll(Initial(), ts, choices).value.conflicts == []
    ensures forall j :: 0 <= j < |ts| && Counts(ts[j]) ==>
      ts[j].key in AbsorbAll(Initial(), ts, choices).value.env.vals &&
      AbsorbAll(Initial(), ts, choices).value.env.vals[ts[j].key] == ts[j].value
  {
    if ts != [] {
      var pre := ts[..|ts| - 1];
      var t := ts[|ts| - 1];
      assert Agree(pre);
      AgreeKeepsAll(pre, choices);
      FoldValues(pre, choices);
      var s := AbsorbAll(Initial(), pre, choices).value;
      var s2 := AbsorbAll(Initial(), ts, choices).value;
      assert Absorb(s, t, choices) == Ok(s2);
      if Counts(t) && t.key in s.env.vals {
        var j :| 0 <= j < |pre| && Counts(pre[j]) && pre[j].key == t.key && pre[j].value == s.env.vals[t.key];
        assert ts[j] == pre[j];
        assert ts[j].value == ts[|ts| - 1].value;
      }
      forall j | 0 <= j < |ts| && Counts(ts[j])
        ensures ts[j].key in s2.env.vals && s2.env.vals[ts[j].key] == ts[j].value
      {
        if j < |pre| {
          assert ts[j] == pre[j];
          if Counts(t) && t.key == ts[j].key {
            assert ts[j].value == ts[|ts| - 1].value;
          }
        }
      }
    }
  }

  /** A successful fold that records no conflict saw declarations that agree. */
  lemma {:induction false} ConflictFreeAgree(ts: seq<Decl>, choices: seq<bool>)
    requires AbsorbAll(Initial(), ts, choices).Ok?
    requires AbsorbAll(Initial(), ts, choices).value.conflicts == []
    ensures Agree(ts)
  {
    if ts != [] {
      var pre := ts[..|ts| - 1];
      var t := ts[|ts| - 1];
      var s := AbsorbAll(Initial(), pre, choices).value;
      var s2 := AbsorbAll(Initial(), ts, choices).value;
      assert Absorb(s, t, choices) == Ok(s2);
      assert s.conflicts == [];
      ConflictFreeAgree(pre, choices);
      AgreeKeepsAll(pre, choices);
      forall i, j | 0 <= i < j < |ts| && Counts(ts[i]) && Counts(ts[j]) && ts[i].key == ts[j].key
        ensures ts[i].value == ts[j].value
      {
        assert ts[i] == pre[i];
        if j < |pre| {
          assert ts[j] == pre[j];
        } else {
          assert s.env.vals[t.key] == pre[i].value;
        }
      }
    }
  }

  /**
   * A successful fold records no conflict exactly when the declarations
   * agree; when they agree, every declaration is in the result as written.
   */
  lemma ConflictFreeIffAgree(ts: seq<Decl>, choices: seq<bool>)
    requires AbsorbAll(Initial(), ts, choices).Ok?
    ensures AbsorbAll(Initial(), ts, choices).value.conflicts == [] <==> Agree(ts)
    ensures Agree(ts) ==> forall j :: 0 <= j < |ts| && Counts(ts[j]) ==>
      ts[j].key in AbsorbAll(Initial(), ts, choices).value.env.vals &&
      AbsorbAll(Initial(), ts, choices).value.env.vals[ts[j].key] == ts[j].value
  {
    if Agree(ts) {
      AgreeKeepsAll(ts, choices);
    }
    if AbsorbAll(Initial(), ts, choices).value.conflicts == [] {
      ConflictFreeAgree(ts, choices);
    }
  }

  /** Declarations that agree never reach the prompt: the fold succeeds, and the answers are never consulted. */
  lemma {:induction false} AgreeNeverPrompts(ts: seq<Decl>, choices: seq<bool>)
    requires Agree(ts)
    ensures AbsorbAll(Initial(), ts, []).Ok?
    ensures AbsorbAll(Initial(), ts, choices) == AbsorbAll(Initial(), ts, [])
  {
    if ts != [] {
      var pre := ts[..|ts| - 1];
      var t := ts[|ts| - 1];
      assert Agree(pre);
      AgreeNeverPrompts(pre, choices);
      AgreeKeepsAll(pre, []);
      FoldValues(pre, []);
      var s := AbsorbAll(Initial(), pre, []).value;
      if Counts(t) && t.key in s.env.vals {
        var j :| 0 <= j < |pre| && Counts(pre[j]) && pre[j].key == t.key && pre[j].value == s.env.vals[t.key];
        assert ts[j].value == ts[|ts| - 1].value;
      }
    }
  }

  /** Folding declarations that all agree with the current dictionary changes neither it nor the conflicts. */
  lemma {:induction false} AbsorbAgreeing(s: MergeState, ts: seq<Decl>, choices: seq<bool>)
    requires Valid(s.env)
    requires forall t :: t in ts && Counts(t) ==> t.key in s.env.vals && s.env.vals[t.key] == t.value
    ensures AbsorbAll(s, ts, choices) == Ok(s)
  {
    if ts != [] {
      var pre := ts[..|ts| - 1];
      assert forall t :: t in pre ==> t in ts;
      AbsorbAgreeing(s, pre, choices);
      var t := ts[|ts| - 1];
      if Counts(t) {
        assert s.env.vals[t.key := t.value] == s.env.vals;
      }
    }
  }

  /** The value of the last declaration of `k` that counts, or "" when there is none. */
  function LastValue(ts: seq<Decl>, k: string): string
  {
    if ts == [] then ""
    else
      var t := ts[|ts| - 1];
      if Counts(t) && t.key == k then t.value else LastValue(ts[..|ts| - 1], k)
  }

  /** The number of declarations that change their key's latest value. */
  function Overrides(ts: seq<Decl>): nat
  {
    if ts == [] then 0
    else
      var pre := ts[..|ts| - 1];
      var t := ts[|ts| - 1];
      var last := LastValue(pre, t.key);
      Overrides(pre) + (if Counts(t) && last != "" && last != t.value then 1 else 0)
  }

  /** The value of the first declaration of `k` that counts, or "" when there is none. */
  function FirstValue(ts: seq<Decl>, k: string): string
  {
    if ts == [] then ""
    else
      var t := ts[|ts| - 1];
      var first := FirstValue(ts[..|ts| - 1], k);
      if first != "" then first else if Counts(t) && t.key == k then t.value else ""
  }

  /** The number of declarations that differ from their key's first value. */
  function Divergences(ts: seq<Decl>): nat
  {
    if ts == [] then 0
    else
      var pre := ts[..|ts| - 1];
      var t := ts[|ts| - 1];
      var first := FirstValue(pre, t.key);
      Divergences(pre) + (if Counts(t) && first != "" && first != t.value then 1 else 0)
  }

  /**
   * Answering "use new value" to every prompt is last-write-wins: the fold
   * succeeds exactly when there are enough answers for the overrides, and
   * then records one conflict per override and keeps each key's last value.
   */
  lemma {:induction false} PreferNewIsLastWins(ts: seq<Decl>, choices: seq<bool>)
    requires forall i :: 0 <= i < |choices| ==> !choices[i]
    ensures AbsorbAll(Initial(), ts, choices).Ok? <==> Overrides(ts) <= |choices|
    ensures AbsorbAll(Initial(), ts, choices).Ok? ==>
      && |AbsorbAll(Initial(), ts, choices).value.conflicts| == Overrides(ts)
      && forall k :: (k in AbsorbAll(Initial(), ts, choices).value.env.vals <==> LastValue(ts, k) != "") &&
                     (k in AbsorbAll(Initial(), ts, choices).value.env.vals ==>
                        AbsorbAll(Initial(), ts, choices).value.env.vals[k] == LastValue(ts, k))
  {
    if ts != [] {
      var pre := ts[..|ts| - 1];
      PreferNewIsLastWins(pre, choices);
    }
  }

  /**
   * Answering "keep existing value" to every prompt is first-write-wins: the
   * fold succeeds exactly when there are enough answers for the divergences,
   * and then records one conflict per divergence and keeps each key's first value.
   */
  lemma {:induction false} KeepExistingIsFirstWins(ts: seq<Decl>, choices: seq<bool>)
    requires forall i :: 0 <= i < |choices| ==> choices[i]
    ensures AbsorbAll(Initial(), ts, choices).Ok? <==> Divergences(ts) <= |choices|
    ensures AbsorbAll(Initial(), ts, choices).Ok? ==>
      && |AbsorbAll(Initial(), ts, choices).value.conflicts| == Divergences(ts)
      && forall k :: (k in AbsorbAll(Initial(), ts, choices).value.env.vals <==> FirstValue(ts, k) != "") &&
                     (k in AbsorbAll(Initial(), ts, choices).value.env.vals ==>
                        AbsorbAll(Initial(), ts, choices).value.env.vals[k] == FirstValue(ts, k))
  {
    if ts != [] {
      var pre := ts[..|ts| - 1];
      KeepExistingIsFirstWins(pre, choices);
    }
  }

}

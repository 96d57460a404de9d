/**
 * The `validate` command: every input file is read with the same line parser
 * as `merge`, but into a dictionary where a later line overwrites an earlier
 * one and empty values are kept. Each file is checked against the schema's
 * list of required keys; the check fails when some file lacks a required key.
 */
module Validate {
  import opened Results
  import opened EnvText
  import opened OrderedDict

  // ---------------------------------------------------------------------------
  // One file's variables.
  // ---------------------------------------------------------------------------

  /** `obj[key] = value` for each pair in turn: the last pair for a key wins, even with an empty value. */
  function ToDict<V>(ps: seq<(string, V)>): Dict<V>
  {
    if ps == [] then Empty()
    else
      var p := ps[|ps| - 1];
      Put(ToDict(ps[..|ps| - 1]), p.0, p.1)
  }

  /** The keys of the pairs, in order, with repetitions. */
  function KeysOf<V>(ps: seq<(string, V)>): (r: seq<string>)
    ensures |r| == |ps|
    ensures forall i :: 0 <= i < |ps| ==> r[i] == ps[i].0
  {
    seq(|ps|, i requires 0 <= i < |ps| => ps[i].0)
  }

  lemma ToDictSnoc<V>(ps: seq<(string, V)>, p: (string, V))
    ensures ToDict(ps + [p]) == Put(ToDict(ps), p.0, p.1)
  {
    assert (ps + [p])[..|ps|] == ps;
  }

  /** The dictionary lists each key that has a value exactly once. */
  lemma {:induction false} ToDictValid<V>(ps: seq<(string, V)>)
    ensures Valid(ToDict(ps))
  {
    if ps != [] {
      ToDictValid(ps[..|ps| - 1]);
    }
  }

  /** src/commands/validate.ts:52-57: the dictionary lists each key once, in the order of its first pair. */
  lemma {:induction false} ToDictKeys<V>(ps: seq<(string, V)>)
    ensures ToDict(ps).keys == FirstSeen(KeysOf(ps))
  {
    if ps != [] {
      var pre := ps[..|ps| - 1];
      ToDictKeys(pre);
      ToDictValid(pre);
      var ks := KeysOf(ps);
      assert ks[..|ks| - 1] == KeysOf(pre);
    }
  }

  /** src/commands/validate.ts:52-57: a key has a value exactly when some pair declares it, even with an empty value. */
  lemma {:induction false} ToDictHas<V>(ps: seq<(string, V)>)
    ensures forall k :: k in ToDict(ps).vals <==> exists i :: 0 <= i < |ps| && ps[i].0 == k
  {
    if ps != [] {
      var pre := ps[..|ps| - 1];
      var p := ps[|ps| - 1];
      ToDictHas(pre);
      forall k | k in ToDict(ps).vals ensures exists i :: 0 <= i < |ps| && ps[i].0 == k {
        if k != p.0 {
          var i :| 0 <= i < |pre| && pre[i].0 == k;
          assert ps[i].0 == k;
        }
      }
      forall k | exists i :: 0 <= i < |ps| && ps[i].0 == k ensures k in ToDict(ps).vals {
        var i :| 0 <= i < |ps| && ps[i].0 == k;
        if i < |pre| {
          assert pre[i].0 == k;
        }
      }
    }
  }

  /** src/commands/validate.ts:56: a key holds the value of the last pair that declares it. */
  lemma {:induction false} ToDictLastWins<V>(ps: seq<(string, V)>, i: nat)
    requires i < |ps|
    requires forall j :: i < j < |ps| ==> ps[j].0 != ps[i].0
    ensures ps[i].0 in ToDict(ps).vals && ToDict(ps).vals[ps[i].0] == ps[i].1
  {
    var pre := ps[..|ps| - 1];
    if i < |pre| {
      assert forall j :: i < j < |pre| ==> pre[j] == ps[j];
      ToDictLastWins(pre, i);
      assert pre[i] == ps[i];
    }
  }

  /**
   * src/commands/validate.ts:52-57: the loop that fills `obj` from the clean
   * lines of one file; a line whose raw key is empty is skipped.
   */
  method ReadEnv(lines: seq<string>) returns (obj: Dict<string>)
    ensures obj == ToDict(Pairs(lines))
  {
    obj := Empty();
    var m := 0;
    while m < |lines|
      invariant m <= |lines|
      invariant obj == ToDict(Pairs(lines[..m]))
    {
      var line := lines[m];
      assert lines[..m + 1] == lines[..m] + [line];
      PairsSnoc(lines[..m], line);
      var parsed := ParseLine(line);
      if parsed.Some? {
        ToDictSnoc(Pairs(lines[..m]), parsed.value);
        obj := Put(obj, parsed.value.0, parsed.value.1);
      }
      m := m + 1;
    }
    assert lines[..m] == lines;
  }

  // ---------------------------------------------------------------------------
  // Extra and missing keys.
  // ---------------------------------------------------------------------------

  /** `obj[key] && !config.required.includes(key)`. */
  predicate IsExtra(k: string, vals: map<string, string>, required: seq<string>)
  {
    k in vals && vals[k] != "" && k !in required
  }

  /** The keys of `ks` that are extra, in the order of `ks`. */
  function ExtraKeys(ks: seq<string>, vals: map<string, string>, required: seq<string>): seq<string>
  {
    if ks == [] then []
    else
      var k := ks[|ks| - 1];
      ExtraKeys(ks[..|ks| - 1], vals, required) + (if IsExtra(k, vals, required) then [k] else [])
  }

  /**
   * src/commands/validate.ts:59-64: a key is reported as extra exactly when
   * the file lists it with a non-empty value and the schema does not require
   * it; in particular a key with an empty value is never extra.
   */
  lemma {:induction false} ExtraKeysExact(ks: seq<string>, vals: map<string, string>, required: seq<string>)
    ensures forall k :: k in ExtraKeys(ks, vals, required) <==>
      k in ks && k in vals && vals[k] != "" && k !in required
  {
    if ks != [] {
      var pre := ks[..|ks| - 1];
      ExtraKeysExact(pre, vals, required);
      assert ks == pre + [ks[|ks| - 1]];
    }
  }

  /** src/commands/validate.ts:59-64: the loop over the keys of `obj` that pushes onto `extraVarsFound`. */
  method CollectExtra(obj: Dict<string>, required: seq<string>) returns (found: seq<string>)
    ensures found == ExtraKeys(obj.keys, obj.vals, required)
  {
    found := [];
    var i := 0;
    while i < |obj.keys|
      invariant i <= |obj.keys|
      invariant found == ExtraKeys(obj.keys[..i], obj.vals, required)
    {
      var key := obj.keys[i];
      assert obj.keys[..i + 1][..i] == obj.keys[..i];
      if key in obj.vals && obj.vals[key] != "" && key !in required {
        found := found + [key];
      }
      i := i + 1;
    }
    assert obj.keys[..i] == obj.keys;
  }

  /** `config.required.filter((key) => !obj[key])`: the required keys that are absent or empty, in schema order. */
  function MissingKeys(required: seq<string>, vals: map<string, string>): seq<string>
  {
    if required == [] then []
    else
      var k := required[|required| - 1];
      MissingKeys(required[..|required| - 1], vals) + (if k !in vals || vals[k] == "" then [k] else [])
  }

  /**
   * src/commands/validate.ts:66: a required key is missing exactly when the
   * file does not list it or lists it with an empty value.
   */
  lemma {:induction false} MissingKeysExact(required: seq<string>, vals: map<string, string>)
    ensures forall k :: k in MissingKeys(required, vals) <==> k in required && (k !in vals || vals[k] == "")
  {
    if required != [] {
      var pre := required[..|required| - 1];
      MissingKeysExact(pre, vals);
      assert required == pre + [required[|required| - 1]];
    }
  }

  /**
   * The positions in `required` whose key is absent or empty, in increasing
   * order: where each entry of `MissingKeys` comes from.
   */
  ghost function MissingIndices(required: seq<string>, vals: map<string, string>): seq<nat>
  {
    if required == [] then []
    else
      var k := required[|required| - 1];
      MissingIndices(required[..|required| - 1], vals) + (if k !in vals || vals[k] == "" then [|required| - 1] else [])
  }

  /**
   * The keys are listed in schema order, a repeated key once per occurrence:
   * `MissingIndices` maps the missing keys one to one, in increasing order,
   * onto exactly the positions of `required` whose key is absent or empty.
   */
  lemma {:induction false} MissingKeysInSchemaOrder(required: seq<string>, vals: map<string, string>)
    ensures |MissingIndices(required, vals)| == |MissingKeys(required, vals)|
    ensures forall a :: 0 <= a < |MissingIndices(required, vals)| ==>
      MissingIndices(required, vals)[a] < |required| &&
      MissingKeys(required, vals)[a] == required[MissingIndices(required, vals)[a]]
    ensures forall a, b :: 0 <= a < b < |MissingIndices(required, vals)| ==>
      MissingIndices(required, vals)[a] < MissingIndices(required, vals)[b]
    ensures forall i :: 0 <= i < |required| ==>
      (i in MissingIndices(required, vals) <==> required[i] !in vals || vals[required[i]] == "")
  {
    if required != [] {
      var n := |required| - 1;
      var pre := required[..n];
      var k := required[n];
      MissingKeysInSchemaOrder(pre, vals);
      var p := MissingKeys(pre, vals);
      var q := MissingIndices(pre, vals);
      var add := k !in vals || vals[k] == "";
      var r := MissingKeys(required, vals);
      var idx := MissingIndices(required, vals);
      assert r == p + (if add then [k] else []);
      assert idx == q + (if add then [n] else []);
      forall a | 0 <= a < |idx|
        ensures idx[a] < |required| && r[a] == required[idx[a]]
      {
        if a < |q| {
          assert idx[a] == q[a] && r[a] == p[a];
          assert pre[q[a]] == required[q[a]];
        } else {
          assert idx[a] == n && r[a] == k;
        }
      }
      forall a, b | 0 <= a < b < |idx|
        ensures idx[a] < idx[b]
      {
        assert idx[a] == q[a];
        if b < |q| {
          assert idx[b] == q[b];
        } else {
          assert idx[b] == n;
        }
      }
      assert n !in q by {
        forall a | 0 <= a < |q| ensures q[a] != n { }
      }
      forall i | 0 <= i < |required|
        ensures i in idx <==> required[i] !in vals || vals[required[i]] == ""
      {
        if i < n {
          assert required[i] == pre[i];
          assert i in idx <==> i in q;
        } else {
          assert i in idx <==> add;
        }
      }
    }
  }

  /** Every required key has a non-empty value. */
  ghost predicate Satisfies(required: seq<string>, vals: map<string, string>)
  {
    forall k :: k in required ==> k in vals && vals[k] != ""
  }

  /** A file has no missing key exactly when it satisfies the schema. */
  lemma MissingNoneIffSatisfies(required: seq<string>, vals: map<string, string>)
    ensures MissingKeys(required, vals) == [] <==> Satisfies(required, vals)
  {
    MissingKeysExact(required, vals);
    if MissingKeys(required, vals) != [] {
      assert MissingKeys(required, vals)[0] in MissingKeys(required, vals);
    }
  }

  // ---------------------------------------------------------------------------
  // The report over all files.
  // ---------------------------------------------------------------------------

  /**
   * `missingVariables`: the files with missing keys, in argument order, each
   * with those keys; `extraVariables`: an object from file name to its extra
   * keys (a name given twice keeps its first position and its last list).
   */
  datatype Report = Report(missing: seq<(string, seq<string>)>, extra: Dict<seq<string>>)

  datatype ValidateError = MissingFile(path: string)

  /** The variables of an existing file. */
  function Vars(f: EnvFile): map<string, string>
    requires f.pairs.Some?
  {
    ToDict(f.pairs.value).vals
  }

  /** The extra keys of an existing file. */
  function ExtraOf(required: seq<string>, f: EnvFile): seq<string>
    requires f.pairs.Some?
  {
    var d := ToDict(f.pairs.value);
    ExtraKeys(d.keys, d.vals, required)
  }

  /** src/commands/validate.ts:67-68: the report after one more file, given its missing and its extra keys. */
  function FileReport(rep: Report, path: string, missing: seq<string>, extra: seq<string>): Report
  {
    Report(if missing != [] then rep.missing + [(path, missing)] else rep.missing,
           if extra != [] then Put(rep.extra, path, extra) else rep.extra)
  }

  /** The loop over the files: the first file that does not exist aborts the command. */
  function ValidateFiles(required: seq<string>, files: seq<EnvFile>): Result<Report, ValidateError>
  {
    if files == [] then Ok(Report([], Empty()))
    else
      match ValidateFiles(required, files[..|files| - 1])
      case Err(e) => Err(e)
      case Ok(rep) =>
        var f := files[|files| - 1];
        if f.pairs.None? then Err(MissingFile(f.path))
        else Ok(FileReport(rep, f.path, MissingKeys(required, Vars(f)), ExtraOf(required, f)))
  }

  /** src/commands/validate.ts:71: the check passes exactly when no file has a missing key. */
  predicate Passed(rep: Report)
  {
    rep.missing == []
  }

  lemma ValidateStep(required: seq<string>, files: seq<EnvFile>, n: nat, rep: Report)
    requires n < |files| && ValidateFiles(required, files[..n]) == Ok(rep)
    ensures files[n].pairs.None? ==> ValidateFiles(required, files[..n + 1]) == Err(MissingFile(files[n].path))
    ensures files[n].pairs.Some? ==>
      ValidateFiles(required, files[..n + 1]) ==
        Ok(FileReport(rep, files[n].path, MissingKeys(required, Vars(files[n])), ExtraOf(required, files[n])))
  {
    assert files[..n + 1][..n] == files[..n];
  }

  lemma {:induction false} ValidateAbortsEarly(required: seq<string>, files: seq<EnvFile>, k: nat)
    requires k <= |files|
    requires ValidateFiles(required, files[..k]).Err?
    ensures ValidateFiles(required, files) == ValidateFiles(required, files[..k])
  {
    if k < |files| {
      var pre := files[..|files| - 1];
      assert pre[..k] == files[..k];
      ValidateAbortsEarly(required, pre, k);
    } else {
      assert files[..k] == files;
    }
  }

  /**
   * src/commands/validate.ts:38-69: the loop over the files, which parses
   * each one, collects its extra and missing keys and updates the report;
   * the first file that does not exist stops it.
   */
  method Validate(required: seq<string>, files: seq<Source>) returns (r: Result<Report, ValidateError>)
    ensures r == ValidateFiles(required, LoadAll(files))
  {
    ghost var loaded := LoadAll(files);
    var missingVariables: seq<(string, seq<string>)> := [];
    var extraVariables: Dict<seq<string>> := Empty();
    var n := 0;
    while n < |files|
      invariant n <= |files|
      invariant ValidateFiles(required, loaded[..n]) == Ok(Report(missingVariables, extraVariables))
    {
      var file := files[n];
      ValidateStep(required, loaded, n, Report(missingVariables, extraVariables));
      assert loaded[n] == Load(file);
      if file.text.None? {
        ValidateAbortsEarly(required, loaded, n + 1);
        return Err(MissingFile(file.path));
      }
      var lines := CleanLines(file.text.value);
      var obj := ReadEnv(lines);
      var extraVarsFound := CollectExtra(obj, required);
      var variables := MissingKeys(required, obj.vals);
      if |extraVarsFound| > 0 {
        extraVariables := Put(extraVariables, file.path, extraVarsFound);
      }
      if |variables| > 0 {
        missingVariables := missingVariables + [(file.path, variables)];
      }
      n := n + 1;
    }
    assert loaded[..n] == loaded;
    r := Ok(Report(missingVariables, extraVariables));
  }

  // ---------------------------------------------------------------------------
  // What the report says.
  // ---------------------------------------------------------------------------

  lemma OkStep(required: seq<string>, files: seq<EnvFile>)
    requires files != [] && ValidateFiles(required, files).Ok?
    ensures ValidateFiles(required, files[..|files| - 1]).Ok? && files[|files| - 1].pairs.Some?
  {
  }

  /** src/commands/validate.ts:38-44: the check completes only when every file exists. */
  lemma {:induction false} ValidateOkFoundAll(required: seq<string>, files: seq<EnvFile>)
    requires ValidateFiles(required, files).Ok?
    ensures forall i :: 0 <= i < |files| ==> files[i].pairs.Some?
  {
    if files != [] {
      var pre := files[..|files| - 1];
      OkStep(required, files);
      ValidateOkFoundAll(required, pre);
      forall i | 0 <= i < |pre| ensures files[i].pairs.Some? {
        assert files[i] == pre[i];
      }
    }
  }

  /** src/commands/validate.ts:38-44: when every file exists the check completes. */
  lemma {:induction false} ValidateAllFoundOk(required: seq<string>, files: seq<EnvFile>)
    requires forall i :: 0 <= i < |files| ==> files[i].pairs.Some?
    ensures ValidateFiles(required, files).Ok?
  {
    if files != [] {
      var pre := files[..|files| - 1];
      forall i | 0 <= i < |pre| ensures pre[i].pairs.Some? {
        assert files[i] == pre[i];
      }
      ValidateAllFoundOk(required, pre);
    }
  }

  /**
   * src/commands/validate.ts:38-44: when the check stops, it names the first
   * file that does not exist; every file before it exists.
   */
  lemma {:induction false} ValidateStopsAtFirstMissing(required: seq<string>, files: seq<EnvFile>, p: string)
    requires ValidateFiles(required, files) == Err(MissingFile(p))
    ensures exists i ::
      && 0 <= i < |files| && files[i].pairs.None? && files[i].path == p
      && forall j :: 0 <= j < i ==> files[j].pairs.Some?
  {
    var pre := files[..|files| - 1];
    if ValidateFiles(required, pre).Err? {
      ValidateStopsAtFirstMissing(required, pre, p);
      var i :| 0 <= i < |pre| && pre[i].pairs.None? && pre[i].path == p && forall j :: 0 <= j < i ==> pre[j].pairs.Some?;
      assert forall j :: 0 <= j <= i ==> files[j] == pre[j];
    } else {
      ValidateOkFoundAll(required, pre);
      assert forall j :: 0 <= j < |pre| ==> files[j] == pre[j];
    }
  }

  /** A successful check over files ends with the report of its last file added to the report of the others. */
  lemma ReportStep(required: seq<string>, files: seq<EnvFile>)
    requires files != [] && ValidateFiles(required, files).Ok?
    ensures ValidateFiles(required, files[..|files| - 1]).Ok?
    ensures files[|files| - 1].pairs.Some?
    ensures ValidateFiles(required, files).value ==
      FileReport(ValidateFiles(required, files[..|files| - 1]).value, files[|files| - 1].path,
                 MissingKeys(required, Vars(files[|files| - 1])), ExtraOf(required, files[|files| - 1]))
  {
  }

  /** Each file's name with its missing keys, in argument order. */
  function MissingSummary(required: seq<string>, files: seq<EnvFile>): (r: seq<(string, seq<string>)>)
    requires forall i :: 0 <= i < |files| ==> files[i].pairs.Some?
    ensures |r| == |files|
    ensures forall i :: 0 <= i < |files| ==> r[i] == (files[i].path, MissingKeys(required, Vars(files[i])))
  {
    seq(|files|, i requires 0 <= i < |files| => (files[i].path, MissingKeys(required, Vars(files[i]))))
  }

  /** Each file's name with its extra keys, in argument order. */
  function ExtraSummary(required: seq<string>, files: seq<EnvFile>): (r: seq<(string, seq<string>)>)
    requires forall i :: 0 <= i < |files| ==> files[i].pairs.Some?
    ensures |r| == |files|
    ensures forall i :: 0 <= i < |files| ==> r[i] == (files[i].path, ExtraOf(required, files[i]))
  {
    seq(|files|, i requires 0 <= i < |files| => (files[i].path, ExtraOf(required, files[i])))
  }

  lemma SummarySnoc(required: seq<string>, files: seq<EnvFile>)
    requires files != [] && forall i :: 0 <= i < |files| ==> files[i].pairs.Some?
    ensures var f := files[|files| - 1];
      && MissingSummary(required, files) ==
           MissingSummary(required, files[..|files| - 1]) + [(f.path, MissingKeys(required, Vars(f)))]
      && ExtraSummary(required, files) == ExtraSummary(required, files[..|files| - 1]) + [(f.path, ExtraOf(required, f))]
  {
    var pre := files[..|files| - 1];
    var f := files[|files| - 1];
    var m := MissingSummary(required, files);
    var m' := MissingSummary(required, pre) + [(f.path, MissingKeys(required, Vars(f)))];
    forall i | 0 <= i < |files| ensures m[i] == m'[i] {
      if i < |pre| {
        assert pre[i] == files[i];
      }
    }
    assert m == m';
    var x := ExtraSummary(required, files);
    var x' := ExtraSummary(required, pre) + [(f.path, ExtraOf(required, f))];
    forall i | 0 <= i < |files| ensures x[i] == x'[i] {
      if i < |pre| {
        assert pre[i] == files[i];
      }
    }
    assert x == x';
  }

  /** The entries whose list is not empty, in order. */
  function NonEmpty(xs: seq<(string, seq<string>)>): seq<(string, seq<string>)>
  {
    if xs == [] then []
    else
      var x := xs[|xs| - 1];
      NonEmpty(xs[..|xs| - 1]) + (if x.1 != [] then [x] else [])
  }

  lemma NonEmptySnoc(xs: seq<(string, seq<string>)>, x: (string, seq<string>))
    ensures NonEmpty(xs + [x]) == NonEmpty(xs) + (if x.1 != [] then [x] else [])
  {
    assert (xs + [x])[..|xs|] == xs;
  }

  /** An entry is kept exactly when its list is not empty. */
  lemma {:induction false} NonEmptyHas(xs: seq<(string, seq<string>)>)
    ensures forall x :: x in NonEmpty(xs) <==> x in xs && x.1 != []
  {
    if xs != [] {
      var pre := xs[..|xs| - 1];
      NonEmptyHas(pre);
      assert xs == pre + [xs[|xs| - 1]];
    }
  }

  /**
   * src/commands/validate.ts:38-69: the report of a completed check. The
   * missing report lists, in argument order, each file that has a missing
   * key with those keys; the extra report assigns each file with an extra
   * key its list, as `extraVariables[file] = extraVarsFound` does, so a later
   * file of the same name overwrites an earlier one.
   */
  lemma {:induction false} ReportContents(required: seq<string>, files: seq<EnvFile>)
    requires ValidateFiles(required, files).Ok?
    ensures forall i :: 0 <= i < |files| ==> files[i].pairs.Some?
    ensures ValidateFiles(required, files).value.missing == NonEmpty(MissingSummary(required, files))
    ensures ValidateFiles(required, files).value.extra == ToDict(NonEmpty(ExtraSummary(required, files)))
  {
    ValidateOkFoundAll(required, files);
    if files != [] {
      var pre := files[..|files| - 1];
      var f := files[|files| - 1];
      ReportStep(required, files);
      ReportContents(required, pre);
      SummarySnoc(required, files);
      var ms := MissingSummary(required, pre);
      NonEmptySnoc(ms, (f.path, MissingKeys(required, Vars(f))));
      assert NonEmpty(ms) + [] == NonEmpty(ms);
      var xs := ExtraSummary(required, pre);
      var x := (f.path, ExtraOf(required, f));
      NonEmptySnoc(xs, x);
      if x.1 != [] {
        ToDictSnoc(NonEmpty(xs), x);
      } else {
        assert NonEmpty(xs) + [] == NonEmpty(xs);
      }
    }
  }

  /** src/commands/validate.ts:66-68: a file is in the missing report, with its missing keys, exactly when it has some. */
  lemma MissingReport(required: seq<string>, files: seq<EnvFile>)
    requires ValidateFiles(required, files).Ok?
    ensures forall i :: 0 <= i < |files| ==> files[i].pairs.Some?
    ensures forall e :: e in ValidateFiles(required, files).value.missing <==>
      exists i :: 0 <= i < |files| && e == (files[i].path, MissingKeys(required, Vars(files[i]))) && e.1 != []
  {
    ReportContents(required, files);
    NonEmptyHas(MissingSummary(required, files));
  }

  /** A name heads a kept entry exactly when it heads an entry whose list is not empty. */
  lemma {:induction false} NonEmptyNames(xs: seq<(string, seq<string>)>, p: string)
    ensures (exists j :: 0 <= j < |NonEmpty(xs)| && NonEmpty(xs)[j].0 == p) <==>
            (exists i :: 0 <= i < |xs| && xs[i].0 == p && xs[i].1 != [])
  {
    if xs != [] {
      var pre := xs[..|xs| - 1];
      var x := xs[|xs| - 1];
      NonEmptyNames(pre, p);
      var ys := NonEmpty(pre);
      var zs := NonEmpty(xs);
      assert zs == ys + (if x.1 != [] then [x] else []);
      if exists j :: 0 <= j < |zs| && zs[j].0 == p {
        var j :| 0 <= j < |zs| && zs[j].0 == p;
        if j < |ys| {
          assert zs[j] == ys[j];
          var i :| 0 <= i < |pre| && pre[i].0 == p && pre[i].1 != [];
          assert xs[i] == pre[i];
        } else {
          assert zs[j] == x;
          assert xs[|xs| - 1].0 == p;
        }
      }
      if exists i :: 0 <= i < |xs| && xs[i].0 == p && xs[i].1 != [] {
        var i :| 0 <= i < |xs| && xs[i].0 == p && xs[i].1 != [];
        if i < |pre| {
          assert pre[i] == xs[i];
          var j :| 0 <= j < |ys| && ys[j].0 == p;
          assert zs[j] == ys[j];
        } else {
          assert zs[|ys|] == x;
        }
      }
    }
  }

  /** src/commands/validate.ts:59-67: a file name is in the extra report exactly when some file of that name has an extra key. */
  lemma ExtraReportNames(required: seq<string>, files: seq<EnvFile>)
    requires ValidateFiles(required, files).Ok?
    ensures forall i :: 0 <= i < |files| ==> files[i].pairs.Some?
    ensures forall p :: p in ValidateFiles(required, files).value.extra.vals <==>
      exists i :: 0 <= i < |files| && files[i].path == p && ExtraOf(required, files[i]) != []
  {
    ReportContents(required, files);
    var xs := ExtraSummary(required, files);
    var ys := NonEmpty(xs);
    ToDictHas(ys);
    forall p ensures p in ToDict(ys).vals <==>
      exists i :: 0 <= i < |files| && files[i].path == p && ExtraOf(required, files[i]) != []
    {
      NonEmptyNames(xs, p);
    }
  }

  /**
   * src/commands/validate.ts:71, 114-152: validation fails exactly when some
   * file has a required key that is absent or empty; extra keys alone never
   * make it fail.
   */
  lemma ValidatePassIff(required: seq<string>, files: seq<EnvFile>)
    requires ValidateFiles(required, files).Ok?
    ensures forall i :: 0 <= i < |files| ==> files[i].pairs.Some?
    ensures Passed(ValidateFiles(required, files).value) <==>
      forall i :: 0 <= i < |files| ==> Satisfies(required, Vars(files[i]))
  {
    ReportContents(required, files);
    var ms := MissingSummary(required, files);
    NonEmptyHas(ms);
    if Passed(ValidateFiles(required, files).value) {
      forall i | 0 <= i < |files| ensures Satisfies(required, Vars(files[i])) {
        assert ms[i] in ms;
        MissingNoneIffSatisfies(required, Vars(files[i]));
      }
    } else {
      var e := NonEmpty(ms)[0];
      assert e in NonEmpty(ms);
      var i :| 0 <= i < |ms| && ms[i] == e;
      MissingNoneIffSatisfies(required, Vars(files[i]));
    }
  }


  /** Reading a key twice keeps one entry, holding the second value. */
  lemma ToDictTwice<V>(k: string, v: V, w: V)
    ensures ToDict([(k, v), (k, w)]) == Dict([k], map[k := w])
  {
    var e: seq<(string, V)> := [];
    ToDictSnoc(e, (k, v));
    assert e + [(k, v)] == [(k, v)];
    var d1 := ToDict([(k, v)]);
    assert d1.keys == [k] && d1.vals == map[k := v];
    ToDictSnoc([(k, v)], (k, w));
    assert [(k, v)] + [(k, w)] == [(k, v), (k, w)];
    assert map[k := v][k := w] == map[k := w];
  }

  /** src/commands/validate.ts:53-57, 66: after `A=1` then `A=`, the key `A` holds an empty value and is missing. */
  lemma EmptyLaterLineWins()
    ensures ToDict([("A", "1"), ("A", "")]).vals["A"] == ""
    ensures MissingKeys(["A"], ToDict([("A", "1"), ("A", "")]).vals) == ["A"]
    ensures ExtraKeys(ToDict([("A", "1"), ("A", "")]).keys, ToDict([("A", "1"), ("A", "")]).vals, []) == []
  {
    ToDictTwice("A", "1", "");
    var vals := map["A" := ""];
    var ks := ["A"];
    assert ks[..0] == [];
    assert MissingKeys(ks, vals) == MissingKeys([], vals) + ["A"];
    assert !IsExtra("A", vals, []);
    assert ExtraKeys(ks, vals, []) == ExtraKeys([], vals, []) + [];
  }

}

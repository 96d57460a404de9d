/**
 * The output side of `merge` (src/commands/merge.ts:113-121) and the command
 * as a whole (src/commands/merge.ts:8-121): the overwrite confirmation, the
 * merge fold, and the text written to the output file. The proofs here show
 * that the written text is one `key=value` line per merged key, in merge
 * order, and that reading it back reproduces the merged dictionary.
 */
module MergeOutput {
  import opened Results
  import opened EnvText
  import opened OrderedDict
  import opened EnvMerge

  /** Every listed key has a value: what `for (const key in obj)` followed by `obj[key]` relies on. */
  predicate Listed(d: Dict<string>)
  {
    forall k :: k in d.keys ==> k in d.vals
  }

  /** One key's contribution to `finalContent`: `\n${key}=${value}`, then `\n` and the separator unless it is empty. */
  function Entry(k: string, v: string, sep: string): string
  {
    "\n" + k + "=" + v + (if sep == "" then "" else "\n" + sep)
  }

  /** `finalContent` after the loop has visited the keys `ks`. */
  function Body(ks: seq<string>, vals: map<string, string>, sep: string): string
    requires forall k :: k in ks ==> k in vals
  {
    if ks == [] then ""
    else
      var k := ks[|ks| - 1];
      assert forall x :: x in ks[..|ks| - 1] ==> x in ks;
      Body(ks[..|ks| - 1], vals, sep) + Entry(k, vals[k], sep)
  }

  /** `finalContent.trim() + "\n"`: the text written to the output file, which ends with exactly one line break. */
  function Serialize(d: Dict<string>, sep: string): (r: string)
    requires Listed(d)
    ensures |r| >= 1 && r[|r| - 1] == '\n' && Trimmed(r[..|r| - 1])
  {
    var b := Trim(Body(d.keys, d.vals, sep));
    assert (b + "\n")[..|b|] == b;
    b + "\n"
  }

  /** src/commands/merge.ts:114-121: the `finalContent +=` loop over the keys of `obj`, then the trim. */
  method Write(d: Dict<string>, sep: string) returns (text: string)
    requires Listed(d)
    ensures text == Serialize(d, sep)
  {
    var finalContent := "";
    var i := 0;
    while i < |d.keys|
      invariant i <= |d.keys|
      invariant forall k :: k in d.keys[..i] ==> k in d.keys
      invariant finalContent == Body(d.keys[..i], d.vals, sep)
    {
      var key := d.keys[i];
      assert d.keys[..i + 1][..i] == d.keys[..i];
      assert forall k :: k in d.keys[..i + 1] ==> k in d.keys;
      finalContent := finalContent + "\n" + key + "=" + d.vals[key] + (if sep == "" then "" else "\n" + sep);
      i := i + 1;
    }
    assert d.keys[..i] == d.keys;
    text := Trim(finalContent) + "\n";
  }

  // ---------------------------------------------------------------------------
  // The written text, line by line.
  // ---------------------------------------------------------------------------

  /** The lines of the output for the keys `ks`: `key=value` for each, each followed by the separator unless it is empty. */
  function EntryLines(ks: seq<string>, vals: map<string, string>, sep: string): (r: seq<string>)
    requires forall k :: k in ks ==> k in vals
    ensures |r| == if sep == "" then |ks| else 2 * |ks|
  {
    if ks == [] then []
    else
      var k := ks[|ks| - 1];
      assert forall x :: x in ks[..|ks| - 1] ==> x in ks;
      EntryLines(ks[..|ks| - 1], vals, sep) + [k + "=" + vals[k]] + (if sep == "" then [] else [sep])
  }

  /** The lines `ls`, each preceded by a line break. */
  function Prefixed(ls: seq<string>): string
  {
    if ls == [] then "" else Prefixed(ls[..|ls| - 1]) + "\n" + ls[|ls| - 1]
  }

  /** The lines `ls`, each followed by a line break. */
  function LinesOf(ls: seq<string>): (r: string)
    ensures |r| >= |ls|
  {
    if ls == [] then "" else ls[0] + "\n" + LinesOf(ls[1..])
  }

  /** With no separator, the lines of the output are exactly `key=value` for each key in order. */
  lemma {:induction false} EntryLinesNoSeparator(ks: seq<string>, vals: map<string, string>)
    requires forall k :: k in ks ==> k in vals
    ensures forall i :: 0 <= i < |ks| ==> EntryLines(ks, vals, "")[i] == ks[i] + "=" + vals[ks[i]]
  {
    if ks != [] {
      var pre := ks[..|ks| - 1];
      assert forall x :: x in pre ==> x in ks;
      EntryLinesNoSeparator(pre, vals);
    }
  }

  /** With a separator, every `key=value` line is followed by a separator line. */
  lemma {:induction false} EntryLinesWithSeparator(ks: seq<string>, vals: map<string, string>, sep: string)
    requires forall k :: k in ks ==> k in vals
    requires sep != ""
    ensures forall i :: 0 <= i < |ks| ==>
      EntryLines(ks, vals, sep)[2 * i] == ks[i] + "=" + vals[ks[i]] && EntryLines(ks, vals, sep)[2 * i + 1] == sep
  {
    if ks != [] {
      var pre := ks[..|ks| - 1];
      assert forall x :: x in pre ==> x in ks;
      EntryLinesWithSeparator(pre, vals, sep);
      var r := EntryLines(ks, vals, sep);
      forall i | 0 <= i < |ks|
        ensures r[2 * i] == ks[i] + "=" + vals[ks[i]] && r[2 * i + 1] == sep
      {
        if i < |pre| {
          assert ks[i] == pre[i];
        }
      }
    }
  }

  /** The lines after one entry's contribution to `finalContent`. */
  function EntryTail(k: string, v: string, sep: string): seq<string>
  {
    [k + "=" + v] + (if sep == "" then [] else [sep])
  }

  lemma EntryIsPrefixed(k: string, v: string, sep: string)
    ensures Entry(k, v, sep) == Prefixed(EntryTail(k, v, sep))
  {
    var line := k + "=" + v;
    assert Prefixed([line]) == "\n" + line by {
      assert [line][..0] == [];
    }
    if sep != "" {
      assert [line, sep][..1] == [line];
    }
  }

  lemma {:induction false} PrefixedAppend(a: seq<string>, b: seq<string>)
    ensures Prefixed(a + b) == Prefixed(a) + Prefixed(b)
  {
    if b != [] {
      var b' := b[..|b| - 1];
      assert (a + b)[..|a + b| - 1] == a + b';
      assert (a + b)[|a + b| - 1] == b[|b| - 1];
      PrefixedAppend(a, b');
    } else {
      assert a + b == a;
    }
  }

  lemma {:induction false} BodyIsPrefixed(ks: seq<string>, vals: map<string, string>, sep: string)
    requires forall k :: k in ks ==> k in vals
    ensures Body(ks, vals, sep) == Prefixed(EntryLines(ks, vals, sep))
  {
    if ks != [] {
      var pre := ks[..|ks| - 1];
      var k := ks[|ks| - 1];
      assert forall x :: x in pre ==> x in ks;
      BodyIsPrefixed(pre, vals, sep);
      var a := EntryLines(pre, vals, sep);
      var tail := EntryTail(k, vals[k], sep);
      assert EntryLines(ks, vals, sep) == a + tail;
      EntryIsPrefixed(k, vals[k], sep);
      PrefixedAppend(a, tail);
    }
  }

  lemma {:induction false} LinesOfSnoc(ls: seq<string>, x: string)
    ensures LinesOf(ls + [x]) == LinesOf(ls) + x + "\n"
  {
    if ls != [] {
      assert (ls + [x])[1..] == ls[1..] + [x];
      LinesOfSnoc(ls[1..], x);
    } else {
      assert [x][1..] == [];
    }
  }

  lemma {:induction false} PrefixedIsLinesOf(ls: seq<string>)
    ensures Prefixed(ls) + "\n" == "\n" + LinesOf(ls)
  {
    if ls != [] {
      var pre := ls[..|ls| - 1];
      PrefixedIsLinesOf(pre);
      LinesOfSnoc(pre, ls[|ls| - 1]);
      assert pre + [ls[|ls| - 1]] == ls;
    }
  }

  /** Trimming a line break followed by a text with no space at either end leaves that text. */
  lemma TrimLeadingBreak(x: string)
    requires x != [] && !IsSpace(x[0]) && !IsSpace(x[|x| - 1])
    ensures Trim("\n" + x) == x
  {
    var s := "\n" + x;
    assert s[1..] == x;
    assert LeadingSpaces(s) == 1;
    assert TrimmedLength(x) == |x|;
    assert x[..|x|] == x;
  }

  /** The written lines, less their final line break, preceded by a line break, are the prefixed lines. */
  lemma PrefixedShape(ls: seq<string>)
    requires ls != [] && ls[0] != [] && ls[|ls| - 1] != []
    ensures |LinesOf(ls)| >= 2
    ensures Prefixed(ls) == "\n" + LinesOf(ls)[..|LinesOf(ls)| - 1]
    ensures LinesOf(ls)[|LinesOf(ls)| - 1] == '\n'
    ensures LinesOf(ls)[0] == ls[0][0]
    ensures LinesOf(ls)[|LinesOf(ls)| - 2] == ls[|ls| - 1][|ls[|ls| - 1]| - 1]
  {
    LinesOfEnds(ls);
    PrefixedIsLinesOf(ls);
    var L := LinesOf(ls);
    var x := L[..|L| - 1];
    var p := Prefixed(ls);
    assert p + "\n" == ("\n" + x) + "\n";
    CancelLast(p, "\n" + x, '\n');
  }

  /** The text of non-empty lines starts with the first line's first character and ends with the last line's last character and a line break. */
  lemma LinesOfEnds(ls: seq<string>)
    requires ls != [] && ls[0] != [] && ls[|ls| - 1] != []
    ensures |LinesOf(ls)| >= 2
    ensures LinesOf(ls)[|LinesOf(ls)| - 1] == '\n'
    ensures LinesOf(ls)[0] == ls[0][0]
    ensures LinesOf(ls)[|LinesOf(ls)| - 2] == ls[|ls| - 1][|ls[|ls| - 1]| - 1]
    ensures LinesOf(ls)[..|LinesOf(ls)| - 1] == LinesOf(ls[..|ls| - 1]) + ls[|ls| - 1]
  {
    var pre := ls[..|ls| - 1];
    var last := ls[|ls| - 1];
    LinesOfSnoc(pre, last);
    assert pre + [last] == ls;
    var y := LinesOf(pre) + last;
    assert LinesOf(ls) == y + "\n";
    TakeAllButLast(y, '\n');
  }

  /** Appending a character and dropping it again gives the string back. */
  lemma TakeAllButLast(y: string, c: char)
    ensures (y + [c])[..|y|] == y
  {
  }

  /** Strings that are equal once the same character is appended are equal. */
  lemma CancelLast(a: string, b: string, c: char)
    requires a + [c] == b + [c]
    ensures a == b
  {
    assert a == (a + [c])[..|a|];
    assert b == (b + [c])[..|b|];
  }


  /** The output of a non-empty dictionary is its lines, each followed by one line break, when the first and last lines have no surrounding space. */
  lemma TrimPrefixed(ls: seq<string>)
    requires ls != [] && ls[0] != [] && !IsSpace(ls[0][0])
    requires ls[|ls| - 1] != [] && !IsSpace(ls[|ls| - 1][|ls[|ls| - 1]| - 1])
    ensures Trim(Prefixed(ls)) + "\n" == LinesOf(ls)
  {
    PrefixedShape(ls);
    var L := LinesOf(ls);
    var x := L[..|L| - 1];
    TrimLeadingBreak(x);
    assert x + "\n" == L;
  }

  /** A well-formed merge result: keys and values as the parser produces them, no empty value, and the keys listed once each. */
  ghost predicate WellFormed(d: Dict<string>)
  {
    && Valid(d)
    && forall k :: k in d.vals ==> IsKey(k) && IsValue(d.vals[k]) && d.vals[k] != ""
  }

  /**
   * src/commands/merge.ts:114-121: for a dictionary with at least one key
   * and a separator that is empty or ends in a non-space, the output is
   * every line of `EntryLines` followed by a line break: the trim removes
   * only the leading line break.
   */
  lemma SerializeLines(d: Dict<string>, sep: string)
    requires WellFormed(d) && d.keys != []
    requires sep == "" || !IsSpace(sep[|sep| - 1])
    ensures Serialize(d, sep) == LinesOf(EntryLines(d.keys, d.vals, sep))
  {
    var ls := EntryLines(d.keys, d.vals, sep);
    BodyIsPrefixed(d.keys, d.vals, sep);
    EntryLinesEnds(d, sep);
    TrimPrefixed(ls);
  }

  /** A `key=value` line of a parsed key and a non-empty parsed value starts and ends with a non-space. */
  lemma PairLineEnds(k: string, v: string)
    requires IsKey(k) && IsValue(v) && v != []
    ensures |k + "=" + v| > 0 && !IsSpace((k + "=" + v)[0])
    ensures !IsSpace((k + "=" + v)[|k + "=" + v| - 1])
  {
    assert (k + "=" + v)[0] == k[0];
    assert (k + "=" + v)[|k + "=" + v| - 1] == v[|v| - 1];
  }

  /** The first of the output lines is the first key's line; the last is the last key's line, or the separator. */
  lemma EntryLinesFirstLast(ks: seq<string>, vals: map<string, string>, sep: string)
    requires ks != [] && forall k :: k in ks ==> k in vals
    ensures var ls := EntryLines(ks, vals, sep);
      ls != [] && ls[0] == ks[0] + "=" + vals[ks[0]] &&
      ls[|ls| - 1] == if sep == "" then ks[|ks| - 1] + "=" + vals[ks[|ks| - 1]] else sep
  {
    if sep == "" {
      EntryLinesNoSeparator(ks, vals);
    } else {
      EntryLinesWithSeparator(ks, vals, sep);
      assert EntryLines(ks, vals, sep)[2 * (|ks| - 1) + 1] == sep;
    }
  }

  lemma EntryLinesEnds(d: Dict<string>, sep: string)
    requires WellFormed(d) && d.keys != []
    requires sep == "" || !IsSpace(sep[|sep| - 1])
    ensures var ls := EntryLines(d.keys, d.vals, sep);
      ls != [] && ls[0] != [] && !IsSpace(ls[0][0]) &&
      ls[|ls| - 1] != [] && !IsSpace(ls[|ls| - 1][|ls[|ls| - 1]| - 1])
  {
    var ks := d.keys;
    var k0 := ks[0];
    var kn := ks[|ks| - 1];
    assert k0 in d.vals && kn in d.vals;
    PairLineEnds(k0, d.vals[k0]);
    PairLineEnds(kn, d.vals[kn]);
    EntryLinesFirstLast(ks, d.vals, sep);
  }


  /** The output of the empty dictionary is a single line break. */
  lemma SerializeEmpty(d: Dict<string>, sep: string)
    requires d.keys == []
    ensures Serialize(d, sep) == "\n"
  {
  }

  // ---------------------------------------------------------------------------
  // Reading the output back.
  // ---------------------------------------------------------------------------

  /** The pairs `(k, vals[k])` for the keys `ks`, in order. */
  function KeyPairs(ks: seq<string>, vals: map<string, string>): (r: seq<(string, string)>)
    requires forall k :: k in ks ==> k in vals
    ensures |r| == |ks|
    ensures forall i :: 0 <= i < |ks| ==> r[i] == (ks[i], vals[ks[i]])
  {
    seq(|ks|, i requires 0 <= i < |ks| => (ks[i], vals[ks[i]]))
  }

  lemma KeyPairsSnoc(ks: seq<string>, vals: map<string, string>)
    requires ks != [] && forall k :: k in ks ==> k in vals
    ensures forall k :: k in ks[..|ks| - 1] ==> k in vals
    ensures KeyPairs(ks, vals) == KeyPairs(ks[..|ks| - 1], vals) + [(ks[|ks| - 1], vals[ks[|ks| - 1]])]
  {
    var pre := ks[..|ks| - 1];
    assert forall k :: k in pre ==> k in ks;
    var p := KeyPairs(ks, vals);
    var q := KeyPairs(pre, vals) + [(ks[|ks| - 1], vals[ks[|ks| - 1]])];
    forall i | 0 <= i < |ks| ensures p[i] == q[i] {
      if i < |pre| {
        assert pre[i] == ks[i];
      }
    }
    assert p == q;
  }

  /** The pairs of a dictionary, in key order. */
  function PairsOf(d: Dict<string>): (r: seq<(string, string)>)
    requires Listed(d)
    ensures |r| == |d.keys|
    ensures forall i :: 0 <= i < |d.keys| ==> r[i] == (d.keys[i], d.vals[d.keys[i]])
  {
    KeyPairs(d.keys, d.vals)
  }

  lemma {:induction false} SplitLinesOf(ls: seq<string>)
    requires forall i :: 0 <= i < |ls| ==> IsCleanLine(ls[i])
    ensures SplitLines(LinesOf(ls)) == ls + [""]
  {
    if ls != [] {
      SplitLinesOf(ls[1..]);
      SplitLinesAtLF(ls[0], LinesOf(ls[1..]));
      assert ls == [ls[0]] + ls[1..];
    }
  }

  lemma {:induction false} PairsOfEntryLines(ks: seq<string>, vals: map<string, string>)
    requires forall k :: k in ks ==> k in vals && IsKey(k) && IsValue(vals[k])
    ensures Pairs(EntryLines(ks, vals, "")) == KeyPairs(ks, vals)
  {
    if ks != [] {
      var pre := ks[..|ks| - 1];
      var k := ks[|ks| - 1];
      assert forall x :: x in pre ==> x in ks;
      PairsOfEntryLines(pre, vals);
      var a := EntryLines(pre, vals, "");
      var line := k + "=" + vals[k];
      assert a + [line] + [] == a + [line];
      PairLineStep(a, k, vals[k]);
      KeyPairsSnoc(ks, vals);
    }
  }

  /** Appending the line `k=v` of a parsed pair appends that pair. */
  lemma PairLineStep(a: seq<string>, k: string, v: string)
    requires IsKey(k) && IsValue(v)
    ensures Pairs(a + [k + "=" + v]) == Pairs(a) + [(k, v)]
  {
    ParseLineOfPair(k, v);
    PairsSnoc(a, k + "=" + v);
  }

  /** Each `key=value` line of a well-formed dictionary is a clean line. */
  lemma EntryLinesClean(d: Dict<string>)
    requires WellFormed(d)
    ensures forall i :: 0 <= i < |d.keys| ==> IsCleanLine(EntryLines(d.keys, d.vals, "")[i])
  {
    EntryLinesNoSeparator(d.keys, d.vals);
    forall i | 0 <= i < |d.keys| ensures IsCleanLine(EntryLines(d.keys, d.vals, "")[i]) {
      var k := d.keys[i];
      var line := k + "=" + d.vals[k];
      assert line[0] == k[0];
      assert line[|line| - 1] == d.vals[k][|d.vals[k]| - 1];
      assert forall c :: c in line ==> c in k || c == '=' || c in d.vals[k];
    }
  }

  /**
   * src/commands/merge.ts:61-70 and 114-121: reading the text written for a
   * well-formed dictionary with no separator gives back its pairs, in order.
   */
  lemma ParseSerialize(d: Dict<string>)
    requires WellFormed(d)
    ensures Parse(Serialize(d, "")) == PairsOf(d)
  {
    if d.keys == [] {
      SerializeEmpty(d, "");
      ParseEmptyOutput();
    } else {
      ParseSerializeNonEmpty(d);
    }
  }

  /** The output of the empty dictionary holds no pair. */
  lemma ParseEmptyOutput()
    ensures Parse("\n") == []
  {
    assert SplitLines("\n") == ["", ""];
  }

  lemma ParseSerializeNonEmpty(d: Dict<string>)
    requires WellFormed(d) && d.keys != []
    ensures Parse(Serialize(d, "")) == PairsOf(d)
  {
    CleanLinesOfSerialize(d);
    PairsOfEntryLines(d.keys, d.vals);
  }

  /** The lines the parser reads from the output of a non-empty, well-formed dictionary are its `key=value` lines. */
  lemma CleanLinesOfSerialize(d: Dict<string>)
    requires WellFormed(d) && d.keys != []
    ensures CleanLines(Serialize(d, "")) == EntryLines(d.keys, d.vals, "")
  {
    var ls := EntryLines(d.keys, d.vals, "");
    var text := Serialize(d, "");
    SerializeLines(d, "");
    EntryLinesClean(d);
    SplitLinesOf(ls);
    assert SplitLines(text) == ls + [""];
    CleanAppend(ls, [""]);
    CleanKeepsClean(ls);
    assert Trim("") == "";
    assert Clean([""]) == [];
    assert ls + [] == ls;
  }

  /** The declarations of one file that lists the pairs of a dictionary: one per key, in key order, each of which counts. */
  lemma TagPairsOf(d: Dict<string>, path: string)
    requires WellFormed(d)
    ensures |Tag(PairsOf(d), path)| == |d.keys|
    ensures forall j :: 0 <= j < |d.keys| ==>
      Tag(PairsOf(d), path)[j] == Decl(d.keys[j], d.vals[d.keys[j]], path) && Counts(Tag(PairsOf(d), path)[j])
  {
    var ts := Tag(PairsOf(d), path);
    forall j | 0 <= j < |d.keys|
      ensures ts[j] == Decl(d.keys[j], d.vals[d.keys[j]], path) && Counts(ts[j])
    {
      assert d.keys[j] in d.vals;
    }
  }

  /** Those declarations agree, because no key is listed twice, and declare the dictionary's keys in order. */
  lemma TagPairsOfAgree(d: Dict<string>, path: string)
    requires WellFormed(d)
    ensures Agree(Tag(PairsOf(d), path))
    ensures DeclaredKeys(Tag(PairsOf(d), path)) == d.keys
  {
    var ts := Tag(PairsOf(d), path);
    TagPairsOf(d, path);
    DeclaredKeysAllCount(ts);
    var dk := DeclaredKeys(ts);
    forall j | 0 <= j < |d.keys| ensures dk[j] == d.keys[j] { }
    assert dk == d.keys;
  }

  /** Two dictionaries that list the same keys and agree on each are equal. */
  lemma SameDict(e: Dict<string>, d: Dict<string>)
    requires Valid(e) && Valid(d) && e.keys == d.keys
    requires forall j :: 0 <= j < |d.keys| ==> e.vals[d.keys[j]] == d.vals[d.keys[j]]
    ensures e == d
  {
    forall k | k in d.vals ensures e.vals[k] == d.vals[k] {
      var j :| 0 <= j < |d.keys| && d.keys[j] == k;
    }
    assert e.vals.Keys == d.vals.Keys;
  }

  /** Merging one file that lists distinct keys with non-empty values, each once, gives exactly those pairs and no conflict. */
  lemma MergeDistinct(d: Dict<string>, path: string, choices: seq<bool>)
    requires WellFormed(d)
    ensures AbsorbAll(Initial(), Tag(PairsOf(d), path), choices) == Ok(MergeState(d, []))
  {
    var ts := Tag(PairsOf(d), path);
    TagPairsOfAgree(d, path);
    AgreeNeverPrompts(ts, choices);
    FoldKeys(ts, choices);
    FirstSeenDistinct(d.keys);
    var s := AbsorbAll(Initial(), ts, choices).value;
    MergeDistinctValues(d, path, ts, s.env, choices);
    SameDict(s.env, d);
  }

  lemma MergeDistinctValues(d: Dict<string>, path: string, ts: seq<Decl>, env: Dict<string>, choices: seq<bool>)
    requires WellFormed(d)
    requires ts == Tag(PairsOf(d), path)
    requires AbsorbAll(Initial(), ts, choices).Ok? && AbsorbAll(Initial(), ts, choices).value.env == env
    requires Agree(ts)
    ensures AbsorbAll(Initial(), ts, choices).value.conflicts == []
    ensures forall j :: 0 <= j < |d.keys| ==> d.keys[j] in env.vals && env.vals[d.keys[j]] == d.vals[d.keys[j]]
  {
    TagPairsOf(d, path);
    AgreeKeepsAll(ts, choices);
  }

  /** Reading the output of a well-formed dictionary with no separator, as the only input of a new merge, reproduces it with no conflict. */
  lemma RoundTrip(d: Dict<string>, path: string, choices: seq<bool>)
    requires WellFormed(d)
    ensures MergeFiles(LoadAll([Source(path, Some(Serialize(d, "")))]), choices) == Ok(MergeState(d, []))
  {
    var files := LoadAll([Source(path, Some(Serialize(d, "")))]);
    ParseSerialize(d);
    assert files[0] == EnvFile(path, Some(PairsOf(d)));
    assert files[..0] == [];
    MergeDistinct(d, path, choices);
  }

  // ---------------------------------------------------------------------------
  // What a merge produces.
  // ---------------------------------------------------------------------------

  /** Input files whose pairs all look like parser output. */
  ghost predicate Parsed(files: seq<EnvFile>)
  {
    forall i, j :: 0 <= i < |files| && files[i].pairs.Some? && 0 <= j < |files[i].pairs.value| ==>
      IsKey(files[i].pairs.value[j].0) && IsValue(files[i].pairs.value[j].1)
  }

  /** Files read from disk are parsed. */
  lemma LoadAllParsed(sources: seq<Source>)
    ensures Parsed(LoadAll(sources))
  {
    var files := LoadAll(sources);
    forall i | 0 <= i < |files| && files[i].pairs.Some? ensures
      forall j :: 0 <= j < |files[i].pairs.value| ==> IsKey(files[i].pairs.value[j].0) && IsValue(files[i].pairs.value[j].1)
    {
      ParseShape(sources[i].text.value);
    }
  }

  /**
   * src/commands/merge.ts:72-108, 115: a successful merge has a well-formed
   * dictionary whose keys are the keys declared with a non-empty value in
   * some input file, listed in the order of their first declaration, each
   * holding a non-empty value that some input file declares for it.
   */
  lemma MergedEnv(files: seq<EnvFile>, choices: seq<bool>)
    requires Parsed(files)
    requires MergeFiles(files, choices).Ok?
    ensures WellFormed(MergeFiles(files, choices).value.env)
    ensures forall k :: k in MergeFiles(files, choices).value.env.vals <==>
      exists i, j :: 0 <= i < |files| && files[i].pairs.Some? && 0 <= j < |files[i].pairs.value| &&
                     files[i].pairs.value[j].0 == k && files[i].pairs.value[j].1 != ""
    ensures forall k :: k in MergeFiles(files, choices).value.env.vals ==>
      exists i :: 0 <= i < |files| && files[i].pairs.Some? && (k, MergeFiles(files, choices).value.env.vals[k]) in files[i].pairs.value
    ensures MergeFiles(files, choices).value.env.keys == FirstSeen(DeclaredKeys(Stream(files)))
  {
    MergeOkFoundAll(files, choices);
    MergeIsStreamFold(files, choices);
    var ts := Stream(files);
    var env := MergeFiles(files, choices).value.env;
    FoldKeys(ts, choices);
    MergedValuesFromFiles(files, ts, env, choices);
    MergedKeysFromFiles(files, ts, env, choices);
  }

  /** Every stored pair comes from some file, and so looks like parser output. */
  lemma MergedValuesFromFiles(files: seq<EnvFile>, ts: seq<Decl>, env: Dict<string>, choices: seq<bool>)
    requires Parsed(files)
    requires ts == Stream(files)
    requires AbsorbAll(Initial(), ts, choices).Ok? && AbsorbAll(Initial(), ts, choices).value.env == env
    ensures forall k :: k in env.vals ==> IsKey(k) && IsValue(env.vals[k]) && env.vals[k] != ""
    ensures forall k :: k in env.vals ==>
      exists i :: 0 <= i < |files| && files[i].pairs.Some? && (k, env.vals[k]) in files[i].pairs.value
    ensures forall k :: k in env.vals ==>
      exists i, j :: 0 <= i < |files| && files[i].pairs.Some? && 0 <= j < |files[i].pairs.value| &&
                     files[i].pairs.value[j].0 == k && files[i].pairs.value[j].1 != ""
  {
    FoldValues(ts, choices);
    StreamOrigin(files);
    forall k | k in env.vals
      ensures IsKey(k) && IsValue(env.vals[k]) && env.vals[k] != ""
      ensures exists i :: 0 <= i < |files| && files[i].pairs.Some? && (k, env.vals[k]) in files[i].pairs.value
      ensures exists i, j :: 0 <= i < |files| && files[i].pairs.Some? && 0 <= j < |files[i].pairs.value| &&
                             files[i].pairs.value[j].0 == k && files[i].pairs.value[j].1 != ""
    {
      var n :| 0 <= n < |ts| && Counts(ts[n]) && ts[n].key == k && ts[n].value == env.vals[k];
      assert ts[n] in ts;
      var i :| 0 <= i < |files| && files[i].path == ts[n].from && files[i].pairs.Some? && (ts[n].key, ts[n].value) in files[i].pairs.value;
      var m :| 0 <= m < |files[i].pairs.value| && files[i].pairs.value[m] == (k, env.vals[k]);
    }
  }

  /** Every key some file declares with a non-empty value is stored. */
  lemma MergedKeysFromFiles(files: seq<EnvFile>, ts: seq<Decl>, env: Dict<string>, choices: seq<bool>)
    requires ts == Stream(files)
    requires AbsorbAll(Initial(), ts, choices).Ok? && AbsorbAll(Initial(), ts, choices).value.env == env
    ensures forall i, j :: 0 <= i < |files| && files[i].pairs.Some? && 0 <= j < |files[i].pairs.value| &&
                           files[i].pairs.value[j].0 != "" && files[i].pairs.value[j].1 != "" ==>
                           files[i].pairs.value[j].0 in env.vals
  {
    FoldKeys(ts, choices);
    StreamCovers(files);
    forall i, j | 0 <= i < |files| && files[i].pairs.Some? && 0 <= j < |files[i].pairs.value| &&
                  files[i].pairs.value[j].0 != "" && files[i].pairs.value[j].1 != ""
      ensures files[i].pairs.value[j].0 in env.vals
    {
      var k := files[i].pairs.value[j].0;
      var t := Decl(k, files[i].pairs.value[j].1, files[i].path);
      assert t in ts;
      var n :| 0 <= n < |ts| && ts[n] == t;
      assert Counts(ts[n]);
      assert k in DeclaredKeys(ts);
    }
  }

  lemma MergedListed(files: seq<EnvFile>, choices: seq<bool>)
    requires MergeFiles(files, choices).Ok?
    ensures Listed(MergeFiles(files, choices).value.env)
  {
    MergeOkFoundAll(files, choices);
    MergeIsStreamFold(files, choices);
    FoldKeys(Stream(files), choices);
  }

  /**
   * Merging the written output once more, on its own, reproduces the merged
   * dictionary and records no conflict, whatever the answers.
   */
  lemma MergeOutputRoundTrip(sources: seq<Source>, choices: seq<bool>, out: string, again: seq<bool>)
    requires MergeFiles(LoadAll(sources), choices).Ok?
    ensures var s := MergeFiles(LoadAll(sources), choices).value;
      Listed(s.env) &&
      MergeFiles(LoadAll([Source(out, Some(Serialize(s.env, "")))]), again) == Ok(MergeState(s.env, []))
  {
    LoadAllParsed(sources);
    MergedEnv(LoadAll(sources), choices);
    MergedListed(LoadAll(sources), choices);
    RoundTrip(MergeFiles(LoadAll(sources), choices).value.env, out, again);
  }

  /** Merging the output with itself is idempotent: the second copy agrees with the first and asks nothing. */
  lemma MergeOutputTwice(d: Dict<string>, out: string, choices: seq<bool>)
    requires WellFormed(d)
    ensures MergeFiles(LoadAll([Source(out, Some(Serialize(d, ""))), Source(out, Some(Serialize(d, "")))]), choices)
      == Ok(MergeState(d, []))
  {
    var src := Source(out, Some(Serialize(d, "")));
    LoadOneTwice(src);
    ParseSerialize(d);
    RoundTrip(d, out, choices);
    OwnPairsAgree(d, out);
    AbsorbAgreeing(MergeState(d, []), Tag(PairsOf(d), out), choices);
    MergeSameFileAgain(Load(src), MergeState(d, []), choices);
  }

  lemma LoadOneTwice(src: Source)
    ensures LoadAll([src]) == [Load(src)]
    ensures LoadAll([src, src]) == [Load(src), Load(src)]
  {
  }

  /** A second copy of a file that changes nothing leaves the merge as it was. */
  lemma MergeSameFileAgain(f: EnvFile, s: MergeState, choices: seq<bool>)
    requires MergeFiles([f], choices) == Ok(s)
    requires f.pairs.Some? && AbsorbAll(s, Tag(f.pairs.value, f.path), choices) == Ok(s)
    ensures MergeFiles([f, f], choices) == Ok(s)
  {
    assert [f, f][..1] == [f];
  }

  /** Every declaration of the dictionary's own output agrees with what it holds. */
  lemma OwnPairsAgree(d: Dict<string>, out: string)
    requires WellFormed(d)
    ensures forall t :: t in Tag(PairsOf(d), out) && Counts(t) ==> t.key in d.vals && d.vals[t.key] == t.value
  {
    TagPairsOf(d, out);
  }

  // ---------------------------------------------------------------------------
  // The command.
  // ---------------------------------------------------------------------------

  /**
   * The outcome of `merge`: when the output file exists the user is asked
   * first (no answer: the prompt failed; "no": cancelled); then the merge,
   * and on success the text to write and the conflict log.
   */
  function Outcome(files: seq<EnvFile>, sep: string, outputExists: bool, confirm: Option<bool>, choices: seq<bool>)
    : Result<(string, seq<Conflict>), MergeError>
  {
    if outputExists && confirm.None? then Err(PromptFailed)
    else if outputExists && !confirm.value then Err(Cancelled)
    else
      match MergeFiles(files, choices)
      case Err(e) => Err(e)
      case Ok(s) =>
        MergedListed(files, choices);
        Ok((Serialize(s.env, sep), s.conflicts))
  }

  /**
   * src/commands/merge.ts:8-121. The command is cancelled exactly when the
   * output file exists and the user says no; a missing input file, a failed
   * prompt or a cancellation writes nothing.
   */
  method MergeCommand(files: seq<Source>, sep: string, outputExists: bool, confirm: Option<bool>, choices: seq<bool>)
    returns (r: Result<(string, seq<Conflict>), MergeError>)
    ensures r == Outcome(LoadAll(files), sep, outputExists, confirm, choices)
    ensures r == Err(Cancelled) <==> outputExists && confirm == Some(false)
  {
    MergeErrors(LoadAll(files), choices);
    if outputExists {
      if confirm.None? {
        return Err(PromptFailed);
      }
      if !confirm.value {
        return Err(Cancelled);
      }
    }
    var merged := Merge(files, choices);
    if merged.Err? {
      return Err(merged.error);
    }
    MergedListed(LoadAll(files), choices);
    var text := Write(merged.value.env, sep);
    r := Ok((text, merged.value.conflicts));
  }

  /** What the command writes is the merged dictionary's output, and with no separator reading it back gives that dictionary. */
  lemma CommandOutput(files: seq<Source>, sep: string, outputExists: bool, confirm: Option<bool>, choices: seq<bool>)
    requires Outcome(LoadAll(files), sep, outputExists, confirm, choices).Ok?
    ensures !outputExists || confirm == Some(true)
    ensures MergeFiles(LoadAll(files), choices).Ok?
    ensures Listed(MergeFiles(LoadAll(files), choices).value.env)
    ensures var s := MergeFiles(LoadAll(files), choices).value;
      Outcome(LoadAll(files), sep, outputExists, confirm, choices).value == (Serialize(s.env, sep), s.conflicts)
    ensures sep == "" ==> var s := MergeFiles(LoadAll(files), choices).value;
      Parse(Serialize(s.env, sep)) == PairsOf(s.env)
  {
    LoadAllParsed(files);
    MergedEnv(LoadAll(files), choices);
    MergedListed(LoadAll(files), choices);
    ParseSerialize(MergeFiles(LoadAll(files), choices).value.env);
  }

}

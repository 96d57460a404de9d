/**
 * The `.env` line parser shared by the `merge` and `validate` commands:
 * split the file text into lines, trim them, drop blank and comment lines,
 * and split each remaining line at its first `=`.
 */
module EnvText {
  import opened Results

  /** An input file as the command sees it: its path, and its text, or None when the file does not exist. */
  datatype Source = Source(path: string, text: Option<string>)

  /** An input file after parsing: its path, and its pairs, or None when the file does not exist. */
  datatype EnvFile = EnvFile(path: string, pairs: Option<seq<(string, string)>>)

  /**
   * The characters that JavaScript's String.prototype.trim removes: the
   * WhiteSpace and LineTerminator code points of ECMAScript (sections 12.2
   * and 12.3 of ECMA-262), i.e. TAB, VT, FF, SP, NBSP, ZWNBSP, every other
   * Unicode "Zs" space, LF, CR, LS and PS.
   */
  predicate IsSpace(c: char)
  {
    var n := c as int;
    n == 0x09 || n == 0x0A || n == 0x0B || n == 0x0C || n == 0x0D ||
    n == 0x20 || n == 0xA0 || n == 0x1680 || (0x2000 <= n <= 0x200A) ||
    n == 0x2028 || n == 0x2029 || n == 0x202F || n == 0x205F || n == 0x3000 ||
    n == 0xFEFF
  }

  /** A string with no space at either end. */
  predicate Trimmed(s: string)
  {
    s == [] || (!IsSpace(s[0]) && !IsSpace(s[|s| - 1]))
  }

  /** The number of spaces at the start of `s`. */
  function LeadingSpaces(s: string): (n: nat)
    ensures n <= |s|
    ensures n < |s| ==> !IsSpace(s[n])
  {
    if s != [] && IsSpace(s[0]) then LeadingSpaces(s[1..]) + 1 else 0
  }

  /** The length of `s` without the spaces at its end. */
  function TrimmedLength(s: string): (n: nat)
    ensures n <= |s|
    ensures n > 0 ==> !IsSpace(s[n - 1])
  {
    if s != [] && IsSpace(s[|s| - 1]) then TrimmedLength(s[..|s| - 1]) else |s|
  }

  /** `LeadingSpaces` counts spaces only: everything before it is a space. */
  lemma {:induction false} LeadingSpacesAreSpaces(s: string)
    ensures forall i :: 0 <= i < LeadingSpaces(s) ==> IsSpace(s[i])
  {
    if s != [] && IsSpace(s[0]) {
      LeadingSpacesAreSpaces(s[1..]);
    }
  }

  /** `TrimmedLength` drops spaces only: everything from it on is a space. */
  lemma {:induction false} TrailingSpacesAreSpaces(s: string)
    ensures forall i :: TrimmedLength(s) <= i < |s| ==> IsSpace(s[i])
  {
    if s != [] && IsSpace(s[|s| - 1]) {
      TrailingSpacesAreSpaces(s[..|s| - 1]);
    }
  }

  /** String.prototype.trim: the text between the leading and the trailing spaces. */
  function Trim(s: string): (r: string)
    ensures Trimmed(r)
    ensures forall c :: c in r ==> c in s
  {
    var t := s[LeadingSpaces(s)..];
    t[..TrimmedLength(t)]
  }

  /** Trimming leaves nothing exactly when the text is all spaces (blank lines are dropped). */
  lemma TrimBlank(s: string)
    ensures Trim(s) == [] <==> forall i :: 0 <= i < |s| ==> IsSpace(s[i])
  {
    var a := LeadingSpaces(s);
    LeadingSpacesAreSpaces(s);
    if a < |s| {
      var t := s[a..];
      assert t[0] == s[a];
      assert TrimmedLength(t) > 0 by {
        TrailingSpacesAreSpaces(t);
      }
    }
  }

  /** Trimming a text with no space at either end leaves it unchanged: trimming is idempotent. */
  lemma TrimOfTrimmed(s: string)
    requires Trimmed(s)
    ensures Trim(s) == s
  {
    if s != [] {
      assert LeadingSpaces(s) == 0;
      assert s[0..] == s;
      assert TrimmedLength(s) == |s|;
    }
  }

  /**
   * `text.split(/\r?\n/)`: every "\n", together with a "\r" right before it,
   * ends a line; a "\r" anywhere else stays in the line. There is always at
   * least one line, and none holds a "\n".
   */
  function SplitLines(s: string): (r: seq<string>)
    ensures |r| >= 1
    ensures forall i :: 0 <= i < |r| ==> '\n' !in r[i]
    decreases |s|
  {
    if s == [] then [""]
    else if s[0] == '\n' then [""] + SplitLines(s[1..])
    else if s[0] == '\r' && |s| > 1 && s[1] == '\n' then [""] + SplitLines(s[2..])
    else
      var rest := SplitLines(s[1..]);
      [[s[0]] + rest[0]] + rest[1..]
  }

  /** A text without "\n" is one line. */
  lemma {:induction false} SplitLinesSingle(s: string)
    requires '\n' !in s
    ensures SplitLines(s) == [s]
    decreases |s|
  {
    if s != [] {
      SplitLinesSingle(s[1..]);
      assert [s[0]] + s[1..] == s;
    }
  }

  /** A "\n" that does not follow a "\r" ends the line before it. */
  lemma {:induction false} SplitLinesAtLF(e: string, rest: string)
    requires '\n' !in e
    requires e == [] || e[|e| - 1] != '\r'
    ensures SplitLines(e + "\n" + rest) == [e] + SplitLines(rest)
    decreases |e|
  {
    if e != [] {
      var e' := e[1..];
      assert (e + "\n" + rest)[1..] == e' + "\n" + rest;
      assert (e + "\n" + rest)[0] == e[0];
      SplitLinesAtLF(e', rest);
      if e[0] == '\r' {
        assert e' != [] && (e + "\n" + rest)[1] == e'[0];
      }
      assert [e[0]] + e' == e;
    } else {
      assert (e + "\n" + rest)[1..] == rest;
    }
  }

  /**
   * A "\r\n" ends the line before it, and that "\r" is not part of the line;
   * a "\r" before it stays in the line ("a\r\r\nb" gives "a\r" and "b").
   */
  lemma {:induction false} SplitLinesAtCRLF(e: string, rest: string)
    requires '\n' !in e
    ensures SplitLines(e + "\r\n" + rest) == [e] + SplitLines(rest)
    decreases |e|
  {
    if e != [] {
      var e' := e[1..];
      assert (e + "\r\n" + rest)[1..] == e' + "\r\n" + rest;
      assert (e + "\r\n" + rest)[0] == e[0];
      SplitLinesAtCRLF(e', rest);
      if e[0] == '\r' {
        if e' == [] {
          assert (e + "\r\n" + rest)[1] == '\r';
        } else {
          assert (e + "\r\n" + rest)[1] == e'[0];
        }
      }
      assert [e[0]] + e' == e;
    } else {
      assert (e + "\r\n" + rest)[2..] == rest;
    }
  }

  /** A "\r" right before a "\r\n" stays in its line: "a\r\r\nb" splits into "a\r" and "b". */
  lemma SplitLinesKeepsExtraCR()
    ensures SplitLines("a\r\r\nb") == ["a\r", "b"]
  {
    SplitLinesAtCRLF("a\r", "b");
    SplitLinesSingle("b");
    assert "a\r" + "\r\n" + "b" == "a\r\r\nb";
  }

  /** A line that survives the cleaning pipeline: trimmed, not blank, not a comment, no line break. */
  predicate IsCleanLine(l: string)
  {
    l != [] && Trimmed(l) && l[0] != '#' && '\n' !in l
  }

  /** One line after `.map((line) => line.trim())` and the filter: the trimmed line, or nothing when it is blank or a comment. */
  function CleanLine(line: string): (r: seq<string>)
    requires '\n' !in line
    ensures |r| <= 1
    ensures r != [] ==> IsCleanLine(r[0])
  {
    var t := Trim(line);
    if t != [] && t[0] != '#' then [t] else []
  }

  /** `.map((line) => line.trim()).filter((line) => line && !line.startsWith("#"))`. */
  function Clean(lines: seq<string>): (r: seq<string>)
    requires forall i :: 0 <= i < |lines| ==> '\n' !in lines[i]
    ensures |r| <= |lines|
  {
    if lines == [] then []
    else CleanLine(lines[0]) + Clean(lines[1..])
  }

  /** Every line cleaning keeps is non-blank, trimmed, not a comment and free of line breaks. */
  lemma {:induction false} CleanIsClean(lines: seq<string>)
    requires forall i :: 0 <= i < |lines| ==> '\n' !in lines[i]
    ensures forall i :: 0 <= i < |Clean(lines)| ==> IsCleanLine(Clean(lines)[i])
  {
    if lines != [] {
      CleanIsClean(lines[1..]);
    }
  }

  /** Cleaning works line by line: it distributes over concatenation. */
  lemma {:induction false} CleanAppend(a: seq<string>, b: seq<string>)
    requires forall i :: 0 <= i < |a| ==> '\n' !in a[i]
    requires forall i :: 0 <= i < |b| ==> '\n' !in b[i]
    ensures Clean(a + b) == Clean(a) + Clean(b)
  {
    if a != [] {
      var ab := a + b;
      assert ab[0] == a[0];
      assert ab[1..] == a[1..] + b;
      CleanAppend(a[1..], b);
      var h := CleanLine(a[0]);
      assert Clean(ab) == h + (Clean(a[1..]) + Clean(b));
      assert h + (Clean(a[1..]) + Clean(b)) == (h + Clean(a[1..])) + Clean(b);
    } else {
      assert a + b == b;
    }
  }

  /** Cleaning keeps clean lines as they are: it is idempotent. */
  lemma {:induction false} CleanKeepsClean(lines: seq<string>)
    requires forall i :: 0 <= i < |lines| ==> IsCleanLine(lines[i])
    ensures forall i :: 0 <= i < |lines| ==> '\n' !in lines[i]
    ensures Clean(lines) == lines
  {
    if lines != [] {
      TrimOfTrimmed(lines[0]);
      CleanKeepsClean(lines[1..]);
    }
  }

  /** The lines of a file's text that the commands look at, in order. */
  function CleanLines(text: string): (r: seq<string>)
    ensures forall i :: 0 <= i < |r| ==> IsCleanLine(r[i])
  {
    CleanIsClean(SplitLines(text));
    Clean(SplitLines(text))
  }

  /** The index of the first `c` in `s`, or `|s|` when there is none. */
  function FirstIndex(s: string, c: char): (i: nat)
    ensures i <= |s|
    ensures c !in s[..i]
    ensures i < |s| ==> s[i] == c
  {
    if s == [] then 0
    else if s[0] == c then 0
    else
      var j := FirstIndex(s[1..], c);
      assert s[..j + 1] == [s[0]] + s[1..][..j];
      j + 1
  }

  /**
   * `const [rawKey, ...rest] = line.split("=")`: None when the raw key is
   * empty (the line starts with `=`), otherwise the trimmed key and the
   * trimmed text after the first `=` (empty when there is no `=`).
   */
  function ParseLine(line: string): Option<(string, string)>
  {
    var i := FirstIndex(line, '=');
    if i == 0 then None
    else Some((Trim(line[..i]), if i < |line| then Trim(line[i + 1..]) else ""))
  }

  /**
   * A line splits at its first `=`: the key is the trimmed text before it and
   * the value the trimmed text after it, `=` signs included.
   */
  lemma ParseLineAtFirstEquals(a: string, b: string)
    requires a != [] && '=' !in a
    ensures ParseLine(a + "=" + b) == Some((Trim(a), Trim(b)))
  {
    var rest := "=" + b;
    FirstIndexAfter(a, rest, '=');
    assert a + "=" + b == a + rest;
    assert (a + rest)[..|a|] == a;
    assert (a + rest)[|a| + 1..] == b;
  }

  /** The first `c` after a prefix without `c` is found right after that prefix. */
  lemma {:induction false} FirstIndexAfter(a: string, rest: string, c: char)
    requires c !in a && rest != [] && rest[0] == c
    ensures FirstIndex(a + rest, c) == |a|
  {
    if a != [] {
      assert (a + rest)[1..] == a[1..] + rest;
      FirstIndexAfter(a[1..], rest, c);
    }
  }

  /** A line without `=` is a key with an empty value, and a line starting with `=` is skipped. */
  lemma ParseLineWithoutValue(line: string)
    ensures '=' !in line && line != [] ==> ParseLine(line) == Some((Trim(line), ""))
    ensures line != [] && line[0] == '=' ==> ParseLine(line) == None
  {
    if '=' !in line && line != [] {
      assert line[..|line|] == line;
    }
  }

  /** Parsing inverts writing `key=value`. */
  lemma ParseLineOfPair(k: string, v: string)
    requires IsKey(k) && IsValue(v)
    ensures ParseLine(k + "=" + v) == Some((k, v))
  {
    ParseLineAtFirstEquals(k, v);
    TrimOfTrimmed(k);
    TrimOfTrimmed(v);
  }

  /** The pairs of a sequence of lines, in line order; lines with an empty raw key are skipped. */
  function Pairs(lines: seq<string>): seq<(string, string)>
  {
    if lines == [] then []
    else
      var last := lines[|lines| - 1];
      Pairs(lines[..|lines| - 1]) + (match ParseLine(last) case Some(p) => [p] case None => [])
  }

  /** Appending a line appends its pair, if the line has one. */
  lemma PairsSnoc(lines: seq<string>, line: string)
    ensures ParseLine(line).None? ==> Pairs(lines + [line]) == Pairs(lines)
    ensures ParseLine(line).Some? ==> Pairs(lines + [line]) == Pairs(lines) + [ParseLine(line).value]
  {
    assert (lines + [line])[..|lines|] == lines;
    if ParseLine(line).None? {
      assert Pairs(lines) + [] == Pairs(lines);
    }
  }

  /** The key-value pairs of a file's text, in line order. */
  function Parse(text: string): seq<(string, string)>
  {
    Pairs(CleanLines(text))
  }

  /** A key as the parser produces it: non-empty, trimmed, no `=`, no line break, not starting with `#`. */
  predicate IsKey(k: string)
  {
    k != [] && Trimmed(k) && k[0] != '#' && '=' !in k && '\n' !in k
  }

  /** A value as the parser produces it: trimmed and without a line break (it may be empty). */
  predicate IsValue(v: string)
  {
    Trimmed(v) && '\n' !in v
  }

  /** Every key the parser produces from a clean line is non-empty: the raw key starts with the line's first, non-space, character. */
  lemma ParseLineShape(line: string)
    requires IsCleanLine(line)
    ensures ParseLine(line).Some? ==> IsKey(ParseLine(line).value.0) && IsValue(ParseLine(line).value.1)
  {
    var i := FirstIndex(line, '=');
    if i > 0 {
      var raw := line[..i];
      assert raw[0] == line[0];
      assert LeadingSpaces(raw) == 0 && raw[0..] == raw;
      TrailingSpacesAreSpaces(raw);
      var k := Trim(raw);
      assert k == raw[..TrimmedLength(raw)];
      assert k != [] && k[0] == line[0];
      assert forall c :: c in raw ==> c in line;
      if i < |line| {
        assert forall c :: c in line[i + 1..] ==> c in line;
      }
    }
  }

  lemma PairsShape(lines: seq<string>)
    requires forall i :: 0 <= i < |lines| ==> IsCleanLine(lines[i])
    ensures forall j :: 0 <= j < |Pairs(lines)| ==> IsKey(Pairs(lines)[j].0) && IsValue(Pairs(lines)[j].1)
  {
    if lines != [] {
      PairsShape(lines[..|lines| - 1]);
      ParseLineShape(lines[|lines| - 1]);
    }
  }

  /**
   * Every pair parsed from any text has a key the parser could produce and a
   * value without surrounding spaces or line breaks.
   */
  lemma {:induction false} ParseShape(text: string)
    ensures forall j :: 0 <= j < |Parse(text)| ==> IsKey(Parse(text)[j].0) && IsValue(Parse(text)[j].1)
  {
    PairsShape(CleanLines(text));
  }

  /** Reads and parses one input file. */
  function Load(f: Source): EnvFile
  {
    EnvFile(f.path, match f.text case None => None case Some(t) => Some(Parse(t)))
  }

  /** Reads and parses the input files, in argument order. */
  function LoadAll(files: seq<Source>): (r: seq<EnvFile>)
    ensures |r| == |files|
    ensures forall i :: 0 <= i < |files| ==> r[i] == Load(files[i])
  {
    seq(|files|, i requires 0 <= i < |files| => Load(files[i]))
  }

}

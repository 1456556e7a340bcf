/** Reading the installed packages from the text `brew list` prints: one
    package per line, `name version` or `name@suffix version`. */
module Listing {
  import opened Wrappers
  import opened Text
  import opened Packages

  /** One line: its first space-separated field, cut at the first `@`, is the
      name; its second field, if the line has a space, is the version. */
  function ParseLine(line: string): (e: Entry)
    ensures ' ' !in e.name && '@' !in e.name
    ensures e.version.None? <==> ' ' !in line
    ensures e.version.Some? ==> ' ' !in e.version.value
  {
    var fields := Split(line, ' ');
    var name := Split(fields[0], '@')[0];
    assert ' ' !in name by {
      SplitFirst(fields[0], '@');
      assert name == fields[0][..|name|];
    }
    assert |fields| > 1 <==> ' ' in line by {
      SplitCount(line, ' ');
    }
    Entry(name, if |fields| > 1 then Some(fields[1]) else None)
  }

  /** The lines that are not empty, in order. */
  function NonEmptyLines(lines: seq<string>): (r: seq<string>)
    ensures forall l :: l in r <==> l in lines && l != ""
    ensures |lines| == 1 ==> r == if lines[0] == "" then [] else lines
  {
    if lines == [] then []
    else
      assert lines == [lines[0]] + lines[1..];
      (if lines[0] != "" then [lines[0]] else []) + NonEmptyLines(lines[1..])
  }

  /** The entry of every non-empty line of the output, in order. */
  function ParsedLines(output: string): (es: seq<Entry>)
    ensures '\n' !in output ==> es == if output == "" then [] else [ParseLine(output)]
  {
    assert '\n' !in output ==> Split(output, '\n') == [output] by {
      SplitCount(output, '\n');
    }
    var lines := NonEmptyLines(Split(output, '\n'));
    seq(|lines|, i requires 0 <= i < |lines| => ParseLine(lines[i]))
  }

  /** `Brew.pkgList()` on the output of `brew list`: the one-entry objects of
      the lines merged by `Object.assign` into one package object. Its keys
      are distinct and are exactly the names of the non-empty lines; under
      each name it holds the version of the last line with that name. */
  function PkgList(output: string): (es: seq<Entry>)
    ensures Distinct(Names(es))
    ensures forall k :: k in Names(es) <==> k in Names(ParsedLines(output))
    ensures ToMap(es) == ToMap(ParsedLines(output))
  {
    AssignAllDistinct([], ParsedLines(output));
    AssignAllToMap([], ParsedLines(output));
    assert [] + ParsedLines(output) == ParsedLines(output);
    AssignAll([], ParsedLines(output))
  }

  /** Dropping the empty lines works line by line: it distributes over
      concatenation. */
  lemma {:induction false} NonEmptyLinesConcat(a: seq<string>, b: seq<string>)
    ensures NonEmptyLines(a + b) == NonEmptyLines(a) + NonEmptyLines(b)
  {
    if a == [] {
      assert a + b == b;
    } else {
      assert (a + b)[1..] == a[1..] + b;
      NonEmptyLinesConcat(a[1..], b);
    }
  }

  /** An output is parsed line by line: its first line, if not empty, gives
      the first entry, and the rest of the output the others. */
  lemma ParsedLinesCons(line: string, rest: string)
    requires '\n' !in line
    ensures ParsedLines(line + "\n" + rest)
         == (if line == "" then [] else [ParseLine(line)]) + ParsedLines(rest)
  {
    SplitPrefix(line, '\n', rest);
    NonEmptyLinesConcat([line], Split(rest, '\n'));
  }

  /** The name of a line is its longest prefix holding neither a space nor an
      `@`. */
  lemma ParseLineName(line: string)
    ensures var name := ParseLine(line).name;
      && |name| <= |line| && line[..|name|] == name
      && (|name| < |line| ==> line[|name|] == ' ' || line[|name|] == '@')
  {
    var field := Split(line, ' ')[0];
    SplitFirst(line, ' ');
    SplitFirst(field, '@');
    var name := Split(field, '@')[0];
    assert field[..|name|] == line[..|name|];
    if |name| == |field| && |field| < |line| {
      assert line[|name|] == ' ';
    }
    if |name| < |field| {
      assert line[|name|] == field[|name|];
    }
  }

  /** The version of a line is the text after its first space, up to the
      next space or the end. */
  lemma ParseLineVersion(line: string)
    ensures ParseLine(line).version.Some? ==>
      var field := Split(line, ' ')[0];
      var v := ParseLine(line).version.value;
      var start := |field| + 1;
      && start + |v| <= |line| && line[|field|] == ' ' && line[start..start + |v|] == v && ' ' !in v
      && (start + |v| < |line| ==> line[start + |v|] == ' ')
  {
    SplitCount(line, ' ');
    SplitFirst(line, ' ');
    if ' ' in line {
      var field := Split(line, ' ')[0];
      var tail := line[|field| + 1..];
      assert Split(line, ' ')[1] == Split(tail, ' ')[0];
      SplitFirst(tail, ' ');
    }
  }

  /** For a name on several lines, the version of the last of them wins. */
  lemma PkgListLastWins(output: string, i: nat)
    requires i < |ParsedLines(output)|
    requires forall j :: i < j < |ParsedLines(output)| ==> ParsedLines(output)[j].name != ParsedLines(output)[i].name
    ensures var e := ParsedLines(output)[i];
      e.name in ToMap(PkgList(output)) && ToMap(PkgList(output))[e.name] == e.version
  {
    ToMapLastWins(ParsedLines(output), i);
  }
}

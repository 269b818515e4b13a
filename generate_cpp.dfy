/** The string helpers and name lookups of the code generator generate_cpp.py:
    strip_common_indent, add_indent, lookup_node_id, get_x and the argument
    renaming step of Compute.translated_code. Python's str methods are written
    out on seq<char>; a raised exception is None. */
module GenerateCpp {
  import opened Wrappers
  import Utils

  /** indent: four spaces. */
  const INDENT: string := "    "

  // ---------------------------------------------------------------------------
  // Python's str.split on one character

  /** s.split(c): the pieces between occurrences of c, always at least one. */
  function SplitOn(s: string, c: char): (r: seq<string>)
    ensures |r| >= 1 && forall k :: 0 <= k < |r| ==> c !in r[k]
  {
    if s == [] then [""]
    else
      var rest := SplitOn(s[1..], c);
      if s[0] == c then [""] + rest else [[s[0]] + rest[0]] + rest[1..]
  }

  /** Joining the pieces with c gives back the string. */
  lemma {:induction false} JoinSplitOn(s: string, c: char)
    ensures Utils.Join(SplitOn(s, c), [c]) == s
  {
    if s != [] {
      JoinSplitOn(s[1..], c);
      var rest := SplitOn(s[1..], c);
      if s[0] != c && |rest| > 1 {
        assert rest == [rest[0]] + rest[1..];
      }
    }
  }

  lemma {:induction false} SplitOnPiece(x: string, c: char)
    requires c !in x
    ensures SplitOn(x, c) == [x]
  {
    if x != [] {
      assert x[0] != c && c !in x[1..];
      SplitOnPiece(x[1..], c);
      assert [x[0]] + x[1..] == x;
    }
  }

  lemma {:induction false} SplitOnFirst(x: string, y: string, c: char)
    requires c !in x
    ensures SplitOn(x + [c] + y, c) == [x] + SplitOn(y, c)
  {
    if x != [] {
      assert (x + [c] + y)[0] == x[0] != c;
      assert (x + [c] + y)[1..] == x[1..] + [c] + y;
      SplitOnFirst(x[1..], y, c);
      assert [x[0]] + x[1..] == x;
    } else {
      assert x + [c] + y == [c] + y;
      assert ([c] + y)[1..] == y;
    }
  }

  /** Splitting pieces that do not contain c, joined with c, gives the pieces. */
  lemma {:induction false} SplitOnJoin(parts: seq<string>, c: char)
    requires |parts| >= 1 && forall k :: 0 <= k < |parts| ==> c !in parts[k]
    ensures SplitOn(Utils.Join(parts, [c]), c) == parts
  {
    if |parts| == 1 {
      SplitOnPiece(parts[0], c);
    } else {
      SplitOnJoin(parts[1..], c);
      SplitOnFirst(parts[0], Utils.Join(parts[1..], [c]), c);
    }
  }

  // ---------------------------------------------------------------------------
  // Whitespace and strip_common_indent

  /** str.isspace for one character. */
  predicate IsSpace(c: char)
  {
    c in {'\U{20}', '\U{9}', '\U{A}', '\U{D}', '\U{B}', '\U{C}', '\U{1C}', '\U{1D}',
          '\U{1E}', '\U{1F}', '\U{85}', '\U{A0}', '\U{1680}', '\U{2000}', '\U{2001}', '\U{2002}',
          '\U{2003}', '\U{2004}', '\U{2005}', '\U{2006}', '\U{2007}', '\U{2008}', '\U{2009}', '\U{200A}',
          '\U{2028}', '\U{2029}', '\U{202F}', '\U{205F}', '\U{3000}'}
  }

  /** `not ss.strip()`: the line holds only whitespace. */
  predicate IsBlank(line: string)
  {
    forall k :: 0 <= k < |line| ==> IsSpace(line[k])
  }

  /** len(ss) - len(ss.lstrip()): the number of leading whitespace characters. */
  function LeadingSpace(line: string): (r: nat)
    ensures r <= |line| && forall k :: 0 <= k < r ==> IsSpace(line[k])
    ensures r < |line| ==> !IsSpace(line[r])
    ensures r == |line| <==> IsBlank(line)
  {
    if line == [] || !IsSpace(line[0]) then 0 else 1 + LeadingSpace(line[1..])
  }

  predicate AllBlank(lines: seq<string>)
  {
    forall k :: 0 <= k < |lines| ==> IsBlank(lines[k])
  }

  /** min over the non-blank lines of their leading whitespace; None where
      Python's min raises on an empty sequence. */
  function MinIndent(lines: seq<string>): (r: Option<nat>)
    ensures r.None? <==> AllBlank(lines)
    ensures r.Some? ==> exists k :: 0 <= k < |lines| && !IsBlank(lines[k]) && LeadingSpace(lines[k]) == r.value
    ensures r.Some? ==> forall k :: 0 <= k < |lines| && !IsBlank(lines[k]) ==> r.value <= LeadingSpace(lines[k])
  {
    if lines == [] then None
    else
      var rest := MinIndent(lines[1..]);
      assert forall k :: 1 <= k < |lines| ==> lines[k] == lines[1..][k - 1];
      if IsBlank(lines[0]) then rest
      else if rest.None? then Some(LeadingSpace(lines[0]))
      else if LeadingSpace(lines[0]) <= rest.value then Some(LeadingSpace(lines[0]))
      else rest
  }

  /** ss[i:]: empty when i is past the end. */
  function Drop(line: string, i: nat): (r: string)
    ensures i <= |line| ==> r == line[i..]
    ensures i > |line| ==> r == ""
  {
    if i <= |line| then line[i..] else ""
  }

  function DropAll(lines: seq<string>, i: nat): (r: seq<string>)
    ensures |r| == |lines| && forall k :: 0 <= k < |lines| ==> r[k] == Drop(lines[k], i)
  {
    seq(|lines|, k requires 0 <= k < |lines| => Drop(lines[k], i))
  }

  /** strip_common_indent(s). */
  function StripCommonIndent(s: string): (r: Option<string>)
    ensures r.None? <==> AllBlank(SplitOn(s, '\n'))
  {
    var lines := SplitOn(s, '\n');
    var m := MinIndent(lines);
    if m.None? then None
    else
      Some(Utils.Join(DropAll(lines, m.value), "\n"))
  }

  /** The result has the same lines, each with the common indent removed. */
  lemma StripCommonIndentLines(s: string)
    requires StripCommonIndent(s).Some?
    ensures var lines := SplitOn(s, '\n');
            SplitOn(StripCommonIndent(s).value, '\n') == DropAll(lines, MinIndent(lines).value)
    ensures |SplitOn(StripCommonIndent(s).value, '\n')| == |SplitOn(s, '\n')|
  {
    var lines := SplitOn(s, '\n');
    var out := DropAll(lines, MinIndent(lines).value);
    forall k | 0 <= k < |out|
      ensures '\n' !in out[k]
    {
      DropKeepsOut(lines[k], MinIndent(lines).value, '\n');
    }
    SplitOnJoin(out, '\n');
  }

  /** Dropping a prefix adds no character. */
  lemma DropKeepsOut(line: string, i: nat, c: char)
    requires c !in line
    ensures c !in Drop(line, i)
  {
    if i <= |line| {
      assert forall j :: 0 <= j < |line| - i ==> line[i..][j] == line[i + j];
    }
  }

  /** After stripping, some non-blank line starts without whitespace. */
  lemma StrippedHasFlushLine(s: string)
    requires StripCommonIndent(s).Some?
    ensures MinIndent(SplitOn(StripCommonIndent(s).value, '\n')) == Some(0)
  {
    var lines := SplitOn(s, '\n');
    var i := MinIndent(lines).value;
    StripCommonIndentLines(s);
    var out := SplitOn(StripCommonIndent(s).value, '\n');
    var k :| 0 <= k < |lines| && !IsBlank(lines[k]) && LeadingSpace(lines[k]) == i;
    FlushAfterDrop(lines[k], out[k], i);
    MinIndentZero(out, k);
  }

  /** Dropping exactly a non-blank line's indent leaves it starting with a
      non-space. */
  lemma FlushAfterDrop(line: string, out: string, i: nat)
    requires !IsBlank(line) && LeadingSpace(line) == i && out == Drop(line, i)
    ensures out != [] && !IsSpace(out[0])
  {
    assert i < |line|;
    assert out[0] == line[i];
  }

  /** A non-blank line starting with a non-space makes the minimum indent 0. */
  lemma MinIndentZero(lines: seq<string>, k: nat)
    requires k < |lines| && lines[k] != [] && !IsSpace(lines[k][0])
    ensures MinIndent(lines) == Some(0)
  {
    assert !IsBlank(lines[k]);
    assert LeadingSpace(lines[k]) == 0;
  }

  /** So a second strip changes nothing. */
  lemma StripCommonIndentIdempotent(s: string)
    requires StripCommonIndent(s).Some?
    ensures StripCommonIndent(StripCommonIndent(s).value) == StripCommonIndent(s)
  {
    var t := StripCommonIndent(s).value;
    StrippedHasFlushLine(s);
    var out := SplitOn(t, '\n');
    assert DropAll(out, 0) == out;
    JoinSplitOn(t, '\n');
  }

  // ---------------------------------------------------------------------------
  // add_indent

  /** The line boundaries of str.splitlines. */
  predicate IsLineBreak(c: char)
  {
    c in {'\U{A}', '\U{D}', '\U{B}', '\U{C}', '\U{1C}', '\U{1D}',
          '\U{1E}', '\U{85}', '\U{2028}', '\U{2029}'}
  }

  /** s.splitlines(): "\r\n" is one boundary, and a final boundary does not start
      another line. */
  function SplitLines(s: string): (r: seq<string>)
    ensures forall k, j :: 0 <= k < |r| && 0 <= j < |r[k]| ==> !IsLineBreak(r[k][j])
    ensures r == [] <==> s == []
  {
    if s == [] then []
    else if IsLineBreak(s[0]) then
      [""] + SplitLines(if s[0] == '\r' && |s| > 1 && s[1] == '\n' then s[2..] else s[1..])
    else
      var rest := SplitLines(s[1..]);
      if rest == [] then [[s[0]]] else [[s[0]] + rest[0]] + rest[1..]
  }

  /** ''.join([indent]*n). */
  function Indentation(n: nat): (r: string)
    ensures |r| == 4 * n && forall k :: 0 <= k < |r| ==> r[k] == ' '
  {
    if n == 0 then "" else INDENT + Indentation(n - 1)
  }

  function Prefixed(extra: string, lines: seq<string>): (r: seq<string>)
    ensures |r| == |lines| && forall k :: 0 <= k < |lines| ==> r[k] == extra + lines[k]
  {
    seq(|lines|, k requires 0 <= k < |lines| => extra + lines[k])
  }

  /** add_indent(s, n). */
  function AddIndent(s: string, n: nat): string
  {
    Utils.Join(Prefixed(Indentation(n), SplitLines(s)), "\n")
  }

  /** Each line of the result is a line of s behind n indents. */
  lemma AddIndentLines(s: string, n: nat)
    requires s != []
    ensures SplitOn(AddIndent(s, n), '\n') == Prefixed(Indentation(n), SplitLines(s))
  {
    var extra := Indentation(n);
    var out := Prefixed(extra, SplitLines(s));
    forall k | 0 <= k < |out|
      ensures '\n' !in out[k]
    {
      assert forall j :: 0 <= j < |extra| ==> out[k][j] == ' ';
      assert forall j :: |extra| <= j < |out[k]| ==> out[k][j] == SplitLines(s)[k][j - |extra|];
    }
    SplitOnJoin(out, '\n');
  }

  /** A trailing newline is dropped: s and s + "\n" indent alike when s does not
      already end in a line boundary. */
  lemma {:induction false} SplitLinesTrailingNewline(s: string)
    requires s != [] && !IsLineBreak(s[|s| - 1])
    ensures SplitLines(s + "\n") == SplitLines(s)
  {
    var t := s + "\n";
    if |s| == 1 {
      assert s == [s[0]] && t == [s[0], '\n'];
      NewlineAlone();
      assert t[1..] == "\n" && s[1..] == [];
      assert SplitLines(t[1..]) == [""];
      assert SplitLines(s[1..]) == [];
      assert !IsLineBreak(t[0]);
      assert SplitLines(s) == [[s[0]]];
      assert [s[0]] + "" == [s[0]];
      assert SplitLines(t) == [[s[0]] + ""] + [""][1..];
    } else if IsLineBreak(s[0]) {
      if s[0] == '\r' && s[1] == '\n' {
        assert |s| > 2;
        assert t[2..] == s[2..] + "\n";
        SplitLinesTrailingNewline(s[2..]);
      } else {
        assert t[1..] == s[1..] + "\n";
        SplitLinesTrailingNewline(s[1..]);
      }
    } else {
      assert t[1..] == s[1..] + "\n";
      SplitLinesTrailingNewline(s[1..]);
    }
  }

  lemma NewlineAlone()
    ensures SplitLines("\n") == [""]
  {
    assert "\n"[1..] == [];
  }

  lemma AddIndentDropsTrailingNewline(s: string, n: nat)
    requires s != [] && !IsLineBreak(s[|s| - 1])
    ensures AddIndent(s + "\n", n) == AddIndent(s, n)
  {
    SplitLinesTrailingNewline(s);
  }

  // ---------------------------------------------------------------------------
  // Name lookups

  /** One entry of node_list. */
  datatype NodeEntry = NodeEntry(id: int, name: string, directBefore: seq<int>)

  /** lookup_node_id(name): the position of the first entry with that name, or -1. */
  function LookupNodeId(nodes: seq<NodeEntry>, name: string): (r: int)
    ensures r == -1 <==> forall k :: 0 <= k < |nodes| ==> nodes[k].name != name
    ensures r != -1 ==> 0 <= r < |nodes| && nodes[r].name == name
                        && forall k :: 0 <= k < r ==> nodes[k].name != name
  {
    if nodes == [] then -1
    else if nodes[0].name == name then 0
    else
      var t := LookupNodeId(nodes[1..], name);
      assert forall k :: 1 <= k < |nodes| ==> nodes[k] == nodes[1..][k - 1];
      if t == -1 then -1 else t + 1
  }

  /** get_x(name): d_compute first, then d_input, then d_alias; None where it
      raises. */
  function GetX<X>(dCompute: map<string, X>, dInput: map<string, X>, dAlias: map<string, X>, name: string): (r: Option<X>)
    ensures r.None? <==> name !in dCompute && name !in dInput && name !in dAlias
    ensures name in dCompute ==> r == Some(dCompute[name])
    ensures name !in dCompute && name in dInput ==> r == Some(dInput[name])
    ensures name !in dCompute && name !in dInput && name in dAlias ==> r == Some(dAlias[name])
  {
    if name in dCompute then Some(dCompute[name])
    else if name in dInput then Some(dInput[name])
    else if name in dAlias then Some(dAlias[name])
    else None
  }

  // ---------------------------------------------------------------------------
  // translated_code: renaming the arguments

  /** s.replace(a, b): every non-overlapping occurrence of a, left to right. */
  function Replace(s: string, a: string, b: string): string
    decreases |s|
  {
    if a == [] then b + (if s == [] then [] else [s[0]] + Replace(s[1..], a, b))
    else if |s| < |a| then s
    else if s[..|a|] == a then b + Replace(s[|a|..], a, b)
    else [s[0]] + Replace(s[1..], a, b)
  }

  /** A string without the pattern is left alone. */
  predicate OccursAt(s: string, a: string, k: nat)
  {
    k + |a| <= |s| && s[k..k + |a|] == a
  }

  lemma {:induction false} ReplaceAbsent(s: string, a: string, b: string)
    requires a != [] && forall k: nat :: !OccursAt(s, a, k)
    ensures Replace(s, a, b) == s
  {
    if |s| >= |a| {
      assert !OccursAt(s, a, 0);
      forall k: nat
        ensures !OccursAt(s[1..], a, k)
      {
        assert !OccursAt(s, a, k + 1);
        if k + |a| <= |s[1..]| {
          assert s[1..][k..k + |a|] == s[k + 1..k + 1 + |a|];
        }
      }
      ReplaceAbsent(s[1..], a, b);
    }
  }

  /** The loop `for a in self.args: s = s.replace(a, a + "()")`. */
  function RenameArgs(s: string, args: seq<string>): string
    decreases |args|
  {
    if args == [] then s else RenameArgs(Replace(s, args[0], args[0] + "()"), args[1..])
  }

  /** Renaming also rewrites an argument's name inside a longer identifier. */
  lemma RenameArgsInsideIdentifier()
    ensures RenameArgs("x_n(x)", ["x"]) == "x()_n(x())"
  {
    var a, b := "x", "x()";
    assert Replace(")", a, b) == ")" by {
      assert ")"[..1] != a;
      assert ")"[1..] == "";
    }
    assert Replace("x)", a, b) == "x())" by {
      assert "x)"[..1] == a && "x)"[1..] == ")";
    }
    assert Replace("(x)", a, b) == "(x())" by {
      assert "(x)"[..1] != a && "(x)"[1..] == "x)";
    }
    assert Replace("n(x)", a, b) == "n(x())" by {
      assert "n(x)"[..1] != a && "n(x)"[1..] == "(x)";
    }
    assert Replace("_n(x)", a, b) == "_n(x())" by {
      assert "_n(x)"[..1] != a && "_n(x)"[1..] == "n(x)";
    }
    assert Replace("x_n(x)", a, b) == "x()_n(x())" by {
      assert "x_n(x)"[..1] == a && "x_n(x)"[1..] == "_n(x)";
    }
    assert ["x"][1..] == [];
  }

  /** Characters that continue a C++ identifier. */
  predicate IsIdentChar(c: char)
  {
    'a' <= c <= 'z' || 'A' <= c <= 'Z' || '0' <= c <= '9' || c == '_'
  }

  /** Replacing only whole identifiers: an occurrence of a counts only when no
      identifier character is right before or right after it. */
  function ReplaceIdentifier(s: string, a: string, b: string, afterIdent: bool): string
    requires a != []
    decreases |s|
  {
    if |s| < |a| then s
    else if !afterIdent && s[..|a|] == a && (|s| == |a| || !IsIdentChar(s[|a|])) then
      b + ReplaceIdentifier(s[|a|..], a, b, IsIdentChar(a[|a| - 1]))
    else [s[0]] + ReplaceIdentifier(s[1..], a, b, IsIdentChar(s[0]))
  }

  /** translated_code's renaming as intended: whole identifiers only. */
  function RenameArgsIdentifiers(s: string, args: seq<string>): string
    requires forall k :: 0 <= k < |args| ==> args[k] != []
    decreases |args|
  {
    if args == [] then s
    else RenameArgsIdentifiers(ReplaceIdentifier(s, args[0], args[0] + "()", false), args[1..])
  }

  /** Inside a run of identifier characters nothing is replaced. */
  lemma {:induction false} ReplaceIdentifierSkipsRun(s: string, a: string, b: string)
    requires a != [] && forall k :: 0 <= k < |s| ==> IsIdentChar(s[k])
    ensures ReplaceIdentifier(s, a, b, true) == s
  {
    if |s| >= |a| {
      ReplaceIdentifierSkipsRun(s[1..], a, b);
    }
  }

  /** A longer identifier that contains a is left as it is. */
  lemma ReplaceIdentifierKeepsLongerIdentifier(s: string, a: string, b: string)
    requires a != [] && s != a && forall k :: 0 <= k < |s| ==> IsIdentChar(s[k])
    ensures ReplaceIdentifier(s, a, b, false) == s
  {
    if |s| >= |a| {
      ReplaceIdentifierSkipsRun(s[1..], a, b);
    }
  }

  /** The identifier itself is replaced. */
  lemma ReplaceIdentifierReplacesWhole(a: string, b: string)
    requires a != []
    ensures ReplaceIdentifier(a, a, b, false) == b
  {
    assert a[|a|..] == [];
  }

  lemma RenameArgsIdentifiersExample()
    ensures RenameArgsIdentifiers("x_n(x)", ["x"]) == "x_n(x())"
  {
    var a, b := "x", "x()";
    assert ReplaceIdentifier(")", a, b, true) == ")" by {
      assert ")"[1..] == "";
    }
    assert ReplaceIdentifier("x)", a, b, false) == "x())" by {
      assert "x)"[..1] == a && "x)"[1..] == ")";
    }
    assert ReplaceIdentifier("(x)", a, b, true) == "(x())" by {
      assert "(x)"[1..] == "x)";
    }
    assert ReplaceIdentifier("n(x)", a, b, true) == "n(x())" by {
      assert "n(x)"[1..] == "(x)";
    }
    assert ReplaceIdentifier("_n(x)", a, b, true) == "_n(x())" by {
      assert "_n(x)"[1..] == "n(x)";
    }
    assert ReplaceIdentifier("x_n(x)", a, b, false) == "x_n(x())" by {
      assert "x_n(x)"[1..] == "_n(x)";
    }
    assert ["x"][1..] == [];
  }
}

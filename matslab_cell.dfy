/**
 * The source rewriting a MaTSlab cell performs before running its code:
 * the transpiled JavaScript and the TypeScript text are split into lines,
 * import and export lines are blanked and a leading `export` keyword is
 * stripped; the names the cell exports are collected with two global
 * regular expressions; and the editor height follows the line count.
 */
module CellSource {
  import opened Wrappers

  /** `text.split(sep)`: the pieces between separators; the empty text is one empty piece. */
  function Split(s: string, sep: char): (r: seq<string>)
    ensures |r| >= 1
    decreases |s|
  {
    if |s| == 0 then [""]
    else
      var rest := Split(s[1..], sep);
      if s[0] == sep then [""] + rest else [[s[0]] + rest[0]] + rest[1..]
  }

  /** `lines.join(sep)`. */
  function Join(lines: seq<string>, sep: char): string
  {
    if |lines| == 0 then ""
    else if |lines| == 1 then lines[0]
    else lines[0] + [sep] + Join(lines[1..], sep)
  }

  function Count(s: string, c: char): nat
  {
    if |s| == 0 then 0 else (if s[0] == c then 1 else 0) + Count(s[1..], c)
  }

  /** No piece contains the separator, and there is one piece more than separators. */
  lemma {:induction false} SplitPieces(s: string, sep: char)
    ensures forall l :: l in Split(s, sep) ==> sep !in l
    ensures |Split(s, sep)| == Count(s, sep) + 1
    decreases |s|
  {
    if |s| > 0 {
      SplitPieces(s[1..], sep);
      var rest := Split(s[1..], sep);
      if s[0] != sep {
        assert rest[0] in rest;
        forall l | l in Split(s, sep)
          ensures sep !in l
        {
          if l != [s[0]] + rest[0] {
            assert l in rest[1..];
          }
        }
      }
    }
  }

  /** Joining the pieces gives the text back. */
  lemma {:induction false} JoinSplit(s: string, sep: char)
    ensures Join(Split(s, sep), sep) == s
    decreases |s|
  {
    if |s| > 0 {
      JoinSplit(s[1..], sep);
      var rest := Split(s[1..], sep);
      if s[0] == sep {
        assert Split(s, sep)[1..] == rest;
        assert s == [s[0]] + s[1..];
      } else {
        var r := Split(s, sep);
        assert r[1..] == rest[1..];
        if |rest| == 1 {
          assert s == [s[0]] + rest[0];
        } else {
          assert Join(rest, sep) == rest[0] + [sep] + Join(rest[1..], sep);
          assert s == [s[0]] + s[1..];
        }
      }
    }
  }

  lemma {:induction false} SplitNoSep(a: string, sep: char)
    requires sep !in a
    ensures Split(a, sep) == [a]
    decreases |a|
  {
    if |a| > 0 {
      assert sep !in a[1..] by {
        forall i | 0 <= i < |a[1..]| ensures a[1..][i] != sep { assert a[1..][i] == a[i + 1]; }
      }
      SplitNoSep(a[1..], sep);
      assert [a[0]] + a[1..] == a;
    }
  }

  lemma {:induction false} SplitAfterPiece(a: string, t: string, sep: char)
    requires sep !in a
    ensures Split(a + [sep] + t, sep) == [a] + Split(t, sep)
    decreases |a|
  {
    if |a| == 0 {
      assert a + [sep] + t == [sep] + t;
      assert ([sep] + t)[1..] == t;
    } else {
      assert sep !in a[1..] by {
        forall i | 0 <= i < |a[1..]| ensures a[1..][i] != sep { assert a[1..][i] == a[i + 1]; }
      }
      SplitAfterPiece(a[1..], t, sep);
      assert (a + [sep] + t)[1..] == a[1..] + [sep] + t;
      assert [a[0]] + a[1..] == a;
    }
  }

  /** Splitting joined pieces that hold no separator gives the pieces back. */
  lemma {:induction false} SplitJoin(lines: seq<string>, sep: char)
    requires |lines| >= 1
    requires forall l :: l in lines ==> sep !in l
    ensures Split(Join(lines, sep), sep) == lines
    decreases |lines|
  {
    if |lines| == 1 {
      SplitNoSep(lines[0], sep);
    } else {
      assert lines[0] in lines;
      assert forall l :: l in lines[1..] ==> l in lines;
      SplitJoin(lines[1..], sep);
      SplitAfterPiece(lines[0], Join(lines[1..], sep), sep);
      assert lines == [lines[0]] + lines[1..];
    }
  }

  /** `getHeight`: 19 pixels per line of the text, plus one line. */
  function GetHeight(text: string): int
  {
    (|Split(text, '\n')| + 1) * 19
  }

  lemma GetHeightCountsNewlines(text: string)
    ensures GetHeight(text) == 19 * (Count(text, '\n') + 2)
  {
    SplitPieces(text, '\n');
  }

  /** White space as JavaScript regular expressions (`\s`) and `trim` see it. */
  predicate IsSpace(c: char) {
    c == '\t' || c == '\n' || c == '\U{B}' || c == '\U{C}' || c == '\r' || c == ' ' ||
    c == '\U{A0}' || c == '\U{1680}' || ('\U{2000}' <= c <= '\U{200A}') || c == '\U{2028}' ||
    c == '\U{2029}' || c == '\U{202F}' || c == '\U{205F}' || c == '\U{3000}' || c == '\U{FEFF}'
  }

  /** Character classes used by the patterns below. */
  datatype CharClass =
    | JsSpace      // \s
    | Blank        // [ \t\n]
    | SpaceOnly    // ' '
    | NameChar     // [^=\n\t (:;<]
    | NotBrace     // [^}]

  predicate InClass(c: char, k: CharClass) {
    match k
    case JsSpace => IsSpace(c)
    case Blank => c == ' ' || c == '\t' || c == '\n'
    case SpaceOnly => c == ' '
    case NameChar => !(c == '=' || c == '\n' || c == '\t' || c == ' ' || c == '(' || c == ':' || c == ';' || c == '<')
    case NotBrace => c != '}'
  }

  /** The end of the longest run of class-`k` characters from `i`. */
  function Skip(s: string, i: nat, k: CharClass): (r: nat)
    requires i <= |s|
    ensures i <= r <= |s|
    ensures r == |s| || !InClass(s[r], k)
    decreases |s| - i
  {
    if i < |s| && InClass(s[i], k) then Skip(s, i + 1, k) else i
  }

  /** Everything skipped is in the class. */
  lemma {:induction false} SkipRun(s: string, i: nat, k: CharClass)
    requires i <= |s|
    ensures forall j :: i <= j < Skip(s, i, k) ==> InClass(s[j], k)
    decreases |s| - i
  {
    if i < |s| && InClass(s[i], k) {
      SkipRun(s, i + 1, k);
    }
  }

  predicate StartsWith(s: string, i: nat, lit: string) {
    i + |lit| <= |s| && s[i..i + |lit|] == lit
  }

  /** `line.replace(/^export\s+/g, '')`: `export` and the white space after it, only at the start. */
  function StripExport(line: string): (r: string)
    ensures |r| <= |line| && r == line[|line| - |r|..]
  {
    if StartsWith(line, 0, "export") then
      var k := Skip(line, 6, JsSpace);
      if k > 6 then line[k..] else line
    else line
  }

  /** The JavaScript pass blanks default exports, export lists and `import ` lines. */
  predicate BlankedJs(line: string) {
    StartsWith(line, 0, "export default") || StartsWith(line, 0, "export {") || StartsWith(line, 0, "import ")
  }

  /** A line of transpiled JavaScript: import and export-list lines become empty. */
  function StripJsLine(line: string): (r: string)
    ensures |r| <= |line| && r == line[|line| - |r|..]
    ensures BlankedJs(line) ==> r == ""
    ensures !BlankedJs(line) ==> r == StripExport(line)
  {
    if BlankedJs(line) then "" else StripExport(line)
  }

  /** `/^\s*import\s+/`: white space, `import`, then at least one white space character. */
  predicate IndentedImport(line: string) {
    var k := Skip(line, 0, JsSpace);
    StartsWith(line, k, "import") && k + 6 < |line| && IsSpace(line[k + 6])
  }

  /** The TypeScript pass blanks default exports, export lists and indented imports. */
  predicate BlankedTs(line: string) {
    StartsWith(line, 0, "export default") || StartsWith(line, 0, "export {") || IndentedImport(line)
  }

  /** A line of the TypeScript text: indented imports are blanked too. */
  function StripTsLine(line: string): (r: string)
    ensures |r| <= |line| && r == line[|line| - |r|..]
    ensures BlankedTs(line) ==> r == ""
    ensures !BlankedTs(line) ==> r == StripExport(line)
  {
    if BlankedTs(line) then "" else StripExport(line)
  }

  /**
   * A line loses `export` and the white space after it when it starts with
   * `export` and white space, and is unchanged otherwise; what remains does
   * not start with white space.
   */
  lemma StripExportProps(line: string)
    ensures !StartsWith(line, 0, "export") ==> StripExport(line) == line
    ensures StartsWith(line, 0, "export") && (|line| == 6 || !IsSpace(line[6])) ==> StripExport(line) == line
    ensures StartsWith(line, 0, "export") && |line| > 6 && IsSpace(line[6]) ==>
      var r := StripExport(line);
      && |r| < |line| - 6
      && (forall j :: 6 <= j < |line| - |r| ==> IsSpace(line[j]))
      && (|r| == 0 || !IsSpace(r[0]))
  {
    if StartsWith(line, 0, "export") && |line| > 6 && IsSpace(line[6]) {
      var k := Skip(line, 6, JsSpace);
      SkipRun(line, 6, JsSpace);
      assert StripExport(line) == line[k..];
    }
  }

  /**
   * Every line the JavaScript pass blanks is blanked by the TypeScript pass
   * too: an unindented `import ` line is an indented import with no indent.
   */
  lemma TsBlanksJsBlanks(line: string)
    requires BlankedJs(line)
    ensures BlankedTs(line) && StripTsLine(line) == ""
  {
    if StartsWith(line, 0, "import ") {
      assert !IsSpace(line[0]);
      assert Skip(line, 0, JsSpace) == 0;
      assert line[..6] == line[..7][..6];
    }
  }

  /** Which pass: the transpiled JavaScript or the editor's TypeScript. */
  datatype Pass = Js | Ts

  predicate Blanked(pass: Pass, line: string) {
    match pass
    case Js => BlankedJs(line)
    case Ts => BlankedTs(line)
  }

  /** One line of either pass: blanked, or with a leading `export` removed. */
  function StripLine(pass: Pass, line: string): (r: string)
    ensures |r| <= |line| && r == line[|line| - |r|..]
    ensures Blanked(pass, line) ==> r == ""
    ensures !Blanked(pass, line) ==> r == StripExport(line)
  {
    match pass
    case Js => StripJsLine(line)
    case Ts => StripTsLine(line)
  }

  /** `split('\n').map(...).join('\n')`. */
  function StripLines(pass: Pass, text: string): (r: string)
    ensures |Split(r, '\n')| == |Split(text, '\n')|
    ensures forall i :: 0 <= i < |Split(text, '\n')| ==>
      Split(r, '\n')[i] == StripLine(pass, Split(text, '\n')[i])
  {
    var lines := Split(text, '\n');
    var out := seq(|lines|, i requires 0 <= i < |lines| => StripLine(pass, lines[i]));
    SplitPieces(text, '\n');
    StrippedHaveNoNewline(pass, lines, out);
    SplitJoin(out, '\n');
    Join(out, '\n')
  }

  /** Rewriting lines that hold no newline gives lines that hold none. */
  lemma StrippedHaveNoNewline(pass: Pass, lines: seq<string>, out: seq<string>)
    requires forall l :: l in lines ==> '\n' !in l
    requires |out| == |lines| && forall i :: 0 <= i < |lines| ==> out[i] == StripLine(pass, lines[i])
    ensures forall l :: l in out ==> '\n' !in l
  {
    forall l | l in out
      ensures '\n' !in l
    {
      var i :| 0 <= i < |out| && out[i] == l;
      assert lines[i] in lines;
      var r := StripLine(pass, lines[i]);
      assert r == lines[i][|lines[i]| - |r|..];
    }
  }

  /** One match of a global regular expression: where it starts and ends, and its capture. */
  datatype Match = Match(start: nat, end: nat, capture: string)

  /** The two patterns exported names are collected with. */
  datatype Pattern = FindConstants | FindDynamics

  /** The keyword alternatives of `findConstants`, in the order they are tried. */
  datatype Keyword = ConstEnum | Word(w: string)

  const Keywords: seq<Keyword> := [ConstEnum, Word("default"), Word("class"), Word("interface"), Word("let"),
                                   Word("var"), Word("const"), Word("enum"), Word("type"), Word("function")]

  /** Where keyword `kw` ends when it starts at `k`; `const +enum` allows several spaces. */
  function KeywordEnd(s: string, k: nat, kw: Keyword): (r: Option<nat>)
    requires k <= |s|
    ensures r.Some? ==> k < r.value <= |s|
  {
    match kw
    case Word(w) => if |w| > 0 && StartsWith(s, k, w) then Some(k + |w|) else None
    case ConstEnum =>
      if StartsWith(s, k, "const") then
        var j := Skip(s, k + 5, SpaceOnly);
        if j > k + 5 && StartsWith(s, j, "enum") then Some(j + 4) else None
      else None
  }

  /** `[ \t\n]+([^=\n\t (:;<]+)` from `p`: the end and the captured name. */
  function NameAfter(s: string, p: nat): (r: Option<(nat, string)>)
    requires p <= |s|
    ensures r.Some? ==> p < r.value.0 <= |s| && |r.value.1| > 0
  {
    var q := Skip(s, p, Blank);
    if q == p then None
    else
      var e := Skip(s, q, NameChar);
      if e == q then None else Some((e, s[q..e]))
  }

  /** The first keyword alternative after which a name follows, as backtracking finds it. */
  function KeywordThenName(s: string, k: nat, alts: seq<Keyword>): (r: Option<(nat, string)>)
    requires k <= |s|
    ensures r.Some? ==> k < r.value.0 <= |s|
  {
    if |alts| == 0 then None
    else
      match KeywordEnd(s, k, alts[0])
      case Some(e) =>
        (match NameAfter(s, e)
         case Some(m) => Some(m)
         case None => KeywordThenName(s, k, alts[1..]))
      case None => KeywordThenName(s, k, alts[1..])
  }

  /**
   * `findConstants` anchored at `i`: `export`, blanks, optionally `declare`
   * and blanks (tried first), a keyword, blanks, and the name (group 2).
   */
  function ConstantAt(s: string, i: nat): (r: Option<(nat, string)>)
    requires i <= |s|
    ensures r.Some? ==> i < r.value.0 <= |s|
  {
    if !StartsWith(s, i, "export") then None
    else
      var j := Skip(s, i + 6, Blank);
      if j == i + 6 then None
      else
        var withDeclare :=
          if StartsWith(s, j, "declare") then
            var d := Skip(s, j + 7, Blank);
            if d > j + 7 then KeywordThenName(s, d, Keywords) else None
          else None;
        if withDeclare.Some? then withDeclare else KeywordThenName(s, j, Keywords)
  }

  /** `findDynamics` anchored at `i`: `export`, spaces, `{`, the text up to `}` (group 1), `}`. */
  function DynamicAt(s: string, i: nat): (r: Option<(nat, string)>)
    requires i <= |s|
    ensures r.Some? ==> i < r.value.0 <= |s|
  {
    if !StartsWith(s, i, "export") then None
    else
      var j := Skip(s, i + 6, SpaceOnly);
      if j == i + 6 || j == |s| || s[j] != '{' then None
      else
        var e := Skip(s, j + 1, NotBrace);
        if e == j + 1 || e == |s| then None else Some((e + 1, s[j + 1..e]))
  }

  function MatchAt(p: Pattern, s: string, i: nat): (r: Option<(nat, string)>)
    requires i <= |s|
    ensures r.Some? ==> i < r.value.0 <= |s|
  {
    match p
    case FindConstants => ConstantAt(s, i)
    case FindDynamics => DynamicAt(s, i)
  }

  /**
   * What a pattern matches at each start position 0 .. |s|: the end of the
   * match and its capture, or nothing. A match always ends after it starts.
   */
  function Table(p: Pattern, s: string): (t: seq<Option<(nat, string)>>)
    ensures |t| == |s| + 1
    ensures ValidTable(t)
  {
    seq(|s| + 1, i requires 0 <= i <= |s| => MatchAt(p, s, i))
  }

  predicate ValidTable(t: seq<Option<(nat, string)>>) {
    forall i :: 0 <= i < |t| && t[i].Some? ==> i < t[i].value.0 < |t|
  }

  /** `regex.exec(s)` with `lastIndex` at `from`: the leftmost match starting at or after `from`. */
  function Exec(t: seq<Option<(nat, string)>>, from: nat): (r: Option<Match>)
    requires ValidTable(t) && from < |t|
    ensures r.Some? ==> from <= r.value.start < r.value.end < |t|
    ensures r.Some? ==> t[r.value.start] == Some((r.value.end, r.value.capture))
    decreases |t| - from
  {
    match t[from]
    case Some((e, c)) => Some(Match(from, e, c))
    case None => if from == |t| - 1 then None else Exec(t, from + 1)
  }

  /** The match `exec` finds is the leftmost one; when it finds none, there is none. */
  lemma {:induction false} ExecLeftmost(t: seq<Option<(nat, string)>>, from: nat)
    requires ValidTable(t) && from < |t|
    ensures Exec(t, from).Some? ==> forall i :: from <= i < Exec(t, from).value.start ==> t[i].None?
    ensures Exec(t, from).None? ==> forall i :: from <= i < |t| ==> t[i].None?
    decreases |t| - from
  {
    if t[from].None? && from < |t| - 1 {
      ExecLeftmost(t, from + 1);
    }
  }

  /** Every match from `from` on, each search resuming where the previous match ended. */
  function AllMatches(t: seq<Option<(nat, string)>>, from: nat): seq<Match>
    requires ValidTable(t) && from < |t|
    decreases |t| - from
  {
    match Exec(t, from)
    case None => []
    case Some(m) => [m] + AllMatches(t, m.end)
  }

  /** All matches of a pattern in a text. */
  function Matches(p: Pattern, s: string): seq<Match>
  {
    AllMatches(Table(p, s), 0)
  }

  /** The matches are genuine, in order, and do not overlap. */
  lemma {:induction false} AllMatchesGenuine(t: seq<Option<(nat, string)>>, from: nat)
    requires ValidTable(t) && from < |t|
    ensures var ms := AllMatches(t, from);
      && (forall k :: 0 <= k < |ms| ==>
            (from <= ms[k].start < ms[k].end < |t| && t[ms[k].start] == Some((ms[k].end, ms[k].capture))))
      && (forall k :: 0 <= k < |ms| - 1 ==> ms[k].end <= ms[k + 1].start)
    decreases |t| - from
  {
    match Exec(t, from)
    case None =>
    case Some(m) =>
      AllMatchesGenuine(t, m.end);
      assert AllMatches(t, from) == [m] + AllMatches(t, m.end);
  }

  /** No match starts before the first one or in a gap between two of them. */
  lemma {:induction false} AllMatchesComplete(t: seq<Option<(nat, string)>>, from: nat)
    requires ValidTable(t) && from < |t|
    ensures var ms := AllMatches(t, from);
      && (forall i :: from <= i < (if |ms| == 0 then |t| else ms[0].start) ==> t[i].None?)
      && (forall k, i :: 0 <= k < |ms| - 1 && ms[k].end <= i < ms[k + 1].start && i < |t| ==> t[i].None?)
    decreases |t| - from
  {
    ExecLeftmost(t, from);
    match Exec(t, from)
    case None =>
    case Some(m) =>
      AllMatchesComplete(t, m.end);
      var rest := AllMatches(t, m.end);
      var ms := AllMatches(t, from);
      assert ms == [m] + rest;
      forall k, i | 0 <= k < |ms| - 1 && ms[k].end <= i < ms[k + 1].start && i < |t|
        ensures t[i].None?
      {
        if k > 0 {
          assert ms[k] == rest[k - 1] && ms[k + 1] == rest[k];
        }
      }
  }

  lemma AllMatchesStep(t: seq<Option<(nat, string)>>, from: nat)
    requires ValidTable(t) && from < |t| && Exec(t, from).Some?
    ensures AllMatches(t, from) == [Exec(t, from).value] + AllMatches(t, Exec(t, from).value.end)
  {
  }

  /**
   * `getMatches`: calls `exec` on the global pattern until it returns
   * null; each call resumes at the end of the previous match. The pattern
   * object is shared, but every completed call leaves its `lastIndex` at 0,
   * so each call starts from the beginning.
   */
  method GetMatches(p: Pattern, s: string) returns (matches: seq<Match>)
    ensures matches == Matches(p, s)
  {
    var table := Table(p, s);
    matches := [];
    var lastIndex := 0;
    var m := Exec(table, lastIndex);
    while m.Some?
      invariant lastIndex < |table| && m == Exec(table, lastIndex)
      invariant matches + AllMatches(table, lastIndex) == AllMatches(table, 0)
      decreases |table| - lastIndex
    {
      AllMatchesStep(table, lastIndex);
      matches := matches + [m.value];
      lastIndex := m.value.end;
      m := Exec(table, lastIndex);
    }
  }

  /** `s.trim()`. */
  function Trim(s: string): (r: string)
    ensures |r| <= |s|
    ensures |r| > 0 ==> !IsSpace(r[0]) && !IsSpace(r[|r| - 1])
    ensures exists a, b ::
              && 0 <= a <= b <= |s| && r == s[a..b]
              && (forall i :: 0 <= i < a ==> IsSpace(s[i]))
              && (forall i :: b <= i < |s| ==> IsSpace(s[i]))
    ensures |r| == 0 <==> forall i :: 0 <= i < |s| ==> IsSpace(s[i])
  {
    var a := Skip(s, 0, JsSpace);
    var b := TrimEnd(s, a);
    SkipRun(s, 0, JsSpace);
    assert a < |s| ==> !IsSpace(s[a]);
    s[a..b]
  }

  /** The end of `s` with trailing white space after `a` dropped. */
  function TrimEnd(s: string, a: nat): (b: nat)
    requires a <= |s|
    ensures a <= b <= |s|
    ensures b > a ==> !IsSpace(s[b - 1])
    ensures forall j :: b <= j < |s| ==> IsSpace(s[j])
    decreases |s|
  {
    if |s| > a && IsSpace(s[|s| - 1]) then TrimEnd(s[..|s| - 1], a) else |s|
  }

  /** The names `export const x`, `export function f`, ... declare: group 2 of each match. */
  function ConstantNames(text: string): (r: seq<string>)
  {
    var ms := Matches(FindConstants, text);
    seq(|ms|, k requires 0 <= k < |ms| => ms[k].capture)
  }

  function Flatten(xss: seq<seq<string>>): seq<string>
  {
    if |xss| == 0 then [] else xss[0] + Flatten(xss[1..])
  }

  lemma {:induction false} InFlatten(xss: seq<seq<string>>, x: string)
    ensures x in Flatten(xss) <==> exists k :: 0 <= k < |xss| && x in xss[k]
  {
    if |xss| > 0 {
      InFlatten(xss[1..], x);
      if x in Flatten(xss[1..]) {
        var k :| 0 <= k < |xss[1..]| && x in xss[1..][k];
        assert x in xss[k + 1];
      }
      if exists k :: 0 <= k < |xss| && x in xss[k] {
        var k :| 0 <= k < |xss| && x in xss[k];
        if k > 0 {
          assert x in xss[1..][k - 1];
        }
      }
    }
  }

  /** The names of `export { a, b }` lists: each list split at commas, each piece trimmed. */
  function DynamicNames(text: string): (r: seq<string>)
  {
    var ms := Matches(FindDynamics, text);
    Flatten(seq(|ms|, k requires 0 <= k < |ms| =>
      var pieces := Split(ms[k].capture, ',');
      seq(|pieces|, j requires 0 <= j < |pieces| => Trim(pieces[j]))))
  }

  /** `[...new Set(xs)]`: first occurrences, in order. */
  function Dedupe(xs: seq<string>): (r: seq<string>)
  {
    DedupeFrom(xs, [])
  }

  function DedupeFrom(xs: seq<string>, seen: seq<string>): (r: seq<string>)
  {
    if |xs| == 0 then seen
    else if xs[0] in seen then DedupeFrom(xs[1..], seen)
    else DedupeFrom(xs[1..], seen + [xs[0]])
  }

  predicate NoDuplicates(xs: seq<string>) {
    forall i, j :: 0 <= i < j < |xs| ==> xs[i] != xs[j]
  }

  lemma {:induction false} DedupeFromProps(xs: seq<string>, seen: seq<string>)
    requires NoDuplicates(seen)
    ensures NoDuplicates(DedupeFrom(xs, seen))
    ensures forall x :: x in DedupeFrom(xs, seen) <==> x in seen || x in xs
    ensures |DedupeFrom(xs, seen)| >= |seen| && DedupeFrom(xs, seen)[..|seen|] == seen
    decreases |xs|
  {
    if |xs| > 0 {
      assert xs == [xs[0]] + xs[1..];
      if xs[0] in seen {
        DedupeFromProps(xs[1..], seen);
      } else {
        DedupeFromProps(xs[1..], seen + [xs[0]]);
        var r := DedupeFrom(xs, seen);
        assert r[..|seen| + 1][..|seen|] == seen;
        assert r[..|seen|] == seen;
      }
    }
  }

  /** `exportedNames`: the declared names, then the listed names, each once. */
  function ExportedNames(text: string): (r: seq<string>)
    ensures NoDuplicates(r)
    ensures forall x :: x in r <==> x in ConstantNames(text) || x in DynamicNames(text)
  {
    DedupeFromProps(ConstantNames(text) + DynamicNames(text), []);
    Dedupe(ConstantNames(text) + DynamicNames(text))
  }

  /** The first name found comes first. */
  lemma DedupeKeepsFirst(xs: seq<string>)
    requires |xs| > 0
    ensures |Dedupe(xs)| > 0 && Dedupe(xs)[0] == xs[0]
  {
    assert [] + [xs[0]] == [xs[0]];
    assert Dedupe(xs) == DedupeFrom(xs[1..], [xs[0]]);
    DedupeFromProps(xs[1..], [xs[0]]);
    assert Dedupe(xs)[..1] == [xs[0]];
  }

  /** Every declared name appears among the exported names. */
  lemma ConstantNamesListed(text: string, k: int)
    requires 0 <= k < |Matches(FindConstants, text)|
    ensures Matches(FindConstants, text)[k].capture in ExportedNames(text)
  {
    var all := ConstantNames(text) + DynamicNames(text);
    assert all[k] == ConstantNames(text)[k];
  }

  /** Every piece of an `export { ... }` list appears among the exported names, trimmed. */
  lemma DynamicNamesListed(text: string, k: int, j: int)
    requires var ms := Matches(FindDynamics, text);
      0 <= k < |ms| && 0 <= j < |Split(ms[k].capture, ',')|
    ensures Trim(Split(Matches(FindDynamics, text)[k].capture, ',')[j]) in ExportedNames(text)
  {
    var ms := Matches(FindDynamics, text);
    var xss := seq(|ms|, k requires 0 <= k < |ms| =>
      var pieces := Split(ms[k].capture, ',');
      seq(|pieces|, j requires 0 <= j < |pieces| => Trim(pieces[j])));
    var x := Trim(Split(ms[k].capture, ',')[j]);
    assert x == xss[k][j];
    InFlatten(xss, x);
  }
}

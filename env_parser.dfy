/** The `.env` reader of backend/force-env-reload.php: the file is cut at
    line feeds, each line trimmed; empty lines, "0" and comments are
    skipped; a line with an `=` gives a key (trimmed) and a value (quotes
    stripped from both ends); a later line overrides an earlier one. The
    database settings fall back to fixed defaults. */
module EnvParser {
  import opened Base

  // ----- cutting the file into lines -----

  /** The position of the first `c` in `s`. */
  function IndexOf(s: string, c: char): (r: Option<nat>)
    ensures r.None? <==> c !in s
    ensures r.Some? ==> r.value < |s| && s[r.value] == c && c !in s[..r.value]
    decreases |s|
  {
    if s == [] then None
    else if s[0] == c then Some(0)
    else match IndexOf(s[1..], c)
      case None => None
      case Some(i) =>
        assert s[..i + 1] == [s[0]] + s[1..][..i];
        Some(i + 1)
  }

  /** `explode("\n", $content)`. */
  function Split(s: string): (lines: seq<string>)
    ensures |lines| >= 1
    ensures forall i :: 0 <= i < |lines| ==> '\n' !in lines[i]
    decreases |s|
  {
    match IndexOf(s, '\n')
    case None => [s]
    case Some(i) => [s[..i]] + Split(s[i + 1..])
  }

  /** `implode("\n", $lines)`. */
  function Join(lines: seq<string>): string
    requires |lines| >= 1
    decreases |lines|
  {
    if |lines| == 1 then lines[0] else lines[0] + "\n" + Join(lines[1..])
  }

  /** Cutting loses nothing: joining the lines gives the file back. */
  lemma {:induction false} JoinSplit(s: string)
    ensures Join(Split(s)) == s
    decreases |s|
  {
    match IndexOf(s, '\n')
    case None =>
    case Some(i) =>
      JoinSplit(s[i + 1..]);
      TailOfCons(s[..i], Split(s[i + 1..]));
      Around(s, i);
  }

  /** Sequence step for the parser proofs: dropping the head of a
      cons. */
  lemma TailOfCons<T>(x: T, xs: seq<T>)
    ensures ([x] + xs)[0] == x && ([x] + xs)[1..] == xs
  {
  }

  lemma Around(s: string, i: nat)
    requires i < |s|
    ensures s == s[..i] + [s[i]] + s[i + 1..]
  {
  }

  /** And lines without line feeds are cut back out of their join. */
  lemma {:induction false} SplitJoin(lines: seq<string>)
    requires |lines| >= 1
    requires forall i :: 0 <= i < |lines| ==> '\n' !in lines[i]
    ensures Split(Join(lines)) == lines
    decreases |lines|
  {
    if |lines| > 1 {
      SplitJoin(lines[1..]);
      SplitAfterLine(lines[0], Join(lines[1..]));
      assert [lines[0]] + lines[1..] == lines;
    } else {
      IndexOfAbsent(lines[0]);
    }
  }

  lemma SplitAfterLine(a: string, b: string)
    requires '\n' !in a
    ensures Split(a + "\n" + b) == [a] + Split(b)
  {
    IndexOfAfter(a, b);
    CutAround(a, '\n', b);
  }

  lemma CutAround(a: string, c: char, b: string)
    ensures (a + [c] + b)[..|a|] == a && (a + [c] + b)[|a| + 1..] == b
  {
  }

  lemma IndexOfAfter(a: string, b: string)
    requires '\n' !in a
    ensures IndexOf(a + "\n" + b, '\n') == Some(|a|)
  {
    IndexOfAt(a, '\n', b);
  }

  lemma IndexOfAbsent(a: string)
    requires '\n' !in a
    ensures IndexOf(a, '\n') == None
  {
  }

  // ----- trimming -----

  /** The characters PHP's `trim` removes by default. */
  const Blanks: set<char> := {' ', '\t', '\n', '\r', '\0', '\U{000B}'}

  /** The characters `trim($value, '"\'')` removes. */
  const Quotes: set<char> := {'"', '\''}

  /** `s` without its leading run of characters from `strip`. */
  function TrimLeft(s: string, strip: set<char>): (r: string)
    ensures |r| <= |s| && r == s[|s| - |r|..]
    ensures r == [] || r[0] !in strip
    ensures forall i :: 0 <= i < |s| - |r| ==> s[i] in strip
    decreases |s|
  {
    if s != [] && s[0] in strip then TrimLeft(s[1..], strip) else s
  }

  /** `s` without its trailing run of characters from `strip`. */
  function TrimRight(s: string, strip: set<char>): (r: string)
    ensures |r| <= |s| && r == s[..|r|]
    ensures r == [] || r[|r| - 1] !in strip
    ensures forall i :: |r| <= i < |s| ==> s[i] in strip
    decreases |s|
  {
    if s != [] && s[|s| - 1] in strip then TrimRight(s[..|s| - 1], strip) else s
  }

  /** PHP's `trim`: both runs removed. */
  function Trim(s: string, strip: set<char>): (r: string)
    ensures r == [] || (r[0] !in strip && r[|r| - 1] !in strip)
  {
    TrimRight(TrimLeft(s, strip), strip)
  }

  /** The result of a trim is the middle of the text: what was cut off at
      either end consists of stripped characters only. */
  lemma TrimIsMiddle(s: string, strip: set<char>)
    ensures var lo := |s| - |TrimLeft(s, strip)|; var r := Trim(s, strip);
      && lo + |r| <= |s| && s[lo..lo + |r|] == r
      && (forall i :: 0 <= i < lo ==> s[i] in strip)
      && (forall i :: lo + |r| <= i < |s| ==> s[i] in strip)
  {
    var l := TrimLeft(s, strip);
    var r := Trim(s, strip);
    var lo := |s| - |l|;
    assert s[lo..lo + |r|] == l[..|r|];
  }

  /** A text with nothing to strip at its ends is left alone. */
  lemma TrimClean(s: string, strip: set<char>)
    requires s == [] || (s[0] !in strip && s[|s| - 1] !in strip)
    ensures Trim(s, strip) == s
  {
  }

  // ----- one line -----

  /** What one line contributes: a key and a value, or nothing. */
  type Entry = Option<(string, string)>

  /** One pass of the loop body: trim; skip what `empty()` calls empty and
      comments; cut at the first `=`, trim the key and strip quotes from
      the value. */
  function ParseLine(line: string): Entry {
    ParseTrimmed(Trim(line, Blanks))
  }

  /** The loop body after the trim. */
  function ParseTrimmed(t: string): Entry {
    if !Truthy(t) || t[0] == '#' then None
    else match IndexOf(t, '=')
      case None => None
      case Some(i) => Some((Trim(t[..i], Blanks), Trim(t[i + 1..], Quotes)))
  }

  /** A line is skipped exactly when, once trimmed, it is empty or "0",
      starts a comment, or has no `=`; otherwise its key has no blank and
      its value no quote at either end. */
  lemma ParseLineCases(line: string)
    ensures var t := Trim(line, Blanks);
      ParseLine(line).None? <==> (!Truthy(t) || t[0] == '#' || '=' !in t)
    ensures ParseLine(line).Some? ==> var (k, v) := ParseLine(line).value;
      && (k == [] || (k[0] !in Blanks && k[|k| - 1] !in Blanks))
      && (v == [] || (v[0] !in Quotes && v[|v| - 1] !in Quotes))
  {
  }

  /** A key with nothing to trim, no `=`, and not starting a comment. */
  predicate CleanKey(k: string) {
    k != [] && k[0] !in Blanks && k[|k| - 1] !in Blanks && k[0] != '#' && '=' !in k
  }

  /** A value with no quote at either end and no trailing blank. */
  predicate CleanValue(v: string) {
    v == [] || (v[0] !in Quotes && v[|v| - 1] !in Quotes && v[|v| - 1] !in Blanks)
  }

  lemma IndexOfAt(a: string, c: char, b: string)
    requires c !in a
    ensures IndexOf(a + [c] + b, c) == Some(|a|)
  {
    var s := a + [c] + b;
    assert s[|a|] == c;
    assert s[..|a|] == a;
  }

  lemma AssignmentIsTrimmed(k: string, v: string)
    requires CleanKey(k) && CleanValue(v)
    ensures Trim(k + "=" + v, Blanks) == k + "=" + v
  {
    var line := k + "=" + v;
    assert line[0] == k[0];
    assert line[|line| - 1] == if v == [] then '=' else v[|v| - 1];
    TrimClean(line, Blanks);
  }

  lemma CutAt(k: string, v: string)
    ensures var line := k + "=" + v; line[..|k|] == k && line[|k| + 1..] == v
  {
    ConcatAssoc(k, "=", v);
    DropFront(k, "=" + v);
    DropFront("=", v);
  }

  /** Writing `KEY=VALUE` and reading it back gives the pair again; an `=`
      inside the value stays in the value. */
  lemma ParseLineOfAssignment(k: string, v: string)
    requires CleanKey(k) && CleanValue(v)
    ensures ParseLine(k + "=" + v) == Some((k, v))
  {
    AssignmentIsTrimmed(k, v);
    ParseTrimmedAssignment(k, v);
  }

  lemma ParseTrimmedAssignment(k: string, v: string)
    requires CleanKey(k) && CleanValue(v)
    ensures ParseTrimmed(k + "=" + v) == Some((k, v))
  {
    var line := k + "=" + v;
    assert |line| >= 2 && line[0] == k[0];
    IndexOfAt(k, '=', v);
    CutAt(k, v);
    TrimClean(k, Blanks);
    TrimClean(v, Quotes);
  }

  lemma {:induction false} LeadingRun(indent: string, rest: string, strip: set<char>)
    requires forall i :: 0 <= i < |indent| ==> indent[i] in strip
    requires rest != [] && rest[0] !in strip
    ensures TrimLeft(indent + rest, strip) == rest
    decreases |indent|
  {
    if indent != [] {
      assert (indent + rest)[1..] == indent[1..] + rest;
      LeadingRun(indent[1..], rest, strip);
    }
  }

  /** A comment line contributes nothing, whatever follows the `#`. */
  lemma CommentIsSkipped(indent: string, text: string)
    requires forall i :: 0 <= i < |indent| ==> indent[i] in Blanks
    ensures ParseLine(indent + "#" + text) == None
  {
    ConcatAssoc(indent, "#", text);
    LeadingRun(indent, "#" + text, Blanks);
  }

  // ----- the whole file -----

  /** Records one entry, overriding an earlier value for the key. */
  function Assign(env: map<string, string>, e: Entry): map<string, string> {
    match e
    case None => env
    case Some((k, v)) => env[k := v]
  }

  /** The variables a sequence of entries defines, read in order. */
  function Fold(es: seq<Entry>): map<string, string>
    decreases |es|
  {
    if es == [] then map[] else Assign(Fold(es[..|es| - 1]), es[|es| - 1])
  }

  /** The entries of the lines, one per line. */
  function Entries(lines: seq<string>): (es: seq<Entry>)
    ensures |es| == |lines| && forall i :: 0 <= i < |es| ==> es[i] == ParseLine(lines[i])
  {
    seq(|lines|, i requires 0 <= i < |lines| => ParseLine(lines[i]))
  }

  /** The variables the lines of a file define. */
  function EnvOf(lines: seq<string>): map<string, string> {
    Fold(Entries(lines))
  }

  lemma FoldStep(es: seq<Entry>, i: nat)
    requires i < |es|
    ensures Fold(es[..i + 1]) == Assign(Fold(es[..i]), es[i])
  {
    assert es[..i + 1][..i] == es[..i];
  }

  /** The parsing loop of the script: fills the variables line by line. */
  method ParseEnv(content: string) returns (env: map<string, string>)
    ensures env == EnvOf(Split(content))
  {
    var lines := Split(content);
    ghost var es := Entries(lines);
    env := map[];
    var i := 0;
    while i < |lines|
      invariant 0 <= i <= |lines|
      invariant env == Fold(es[..i])
    {
      FoldStep(es, i);
      var line := Trim(lines[i], Blanks);
      if !Truthy(line) || line[0] == '#' {
        i := i + 1;
        continue;
      }
      var eq := IndexOf(line, '=');
      if eq.Some? {
        var key := Trim(line[..eq.value], Blanks);
        var value := Trim(line[eq.value + 1..], Quotes);
        env := env[key := value];
      }
      i := i + 1;
    }
    assert es[..|lines|] == es;
  }

  /** Whether entry `e` defines key `k`. */
  predicate Defines(e: Entry, k: string) {
    e.Some? && e.value.0 == k
  }

  lemma {:induction false} FoldDefined(es: seq<Entry>, k: string)
    ensures k in Fold(es) <==> exists i :: 0 <= i < |es| && Defines(es[i], k)
    decreases |es|
  {
    if es != [] {
      var init := es[..|es| - 1];
      FoldDefined(init, k);
      if k in Fold(init) {
        var i :| 0 <= i < |init| && Defines(init[i], k);
        assert es[i] == init[i];
      }
      forall i | 0 <= i < |init| ensures es[i] == init[i] { }
    }
  }

  lemma {:induction false} FoldLastWins(es: seq<Entry>, i: nat, k: string, v: string)
    requires i < |es| && es[i] == Some((k, v))
    requires forall j :: i < j < |es| ==> !Defines(es[j], k)
    ensures k in Fold(es) && Fold(es)[k] == v
    decreases |es|
  {
    if i < |es| - 1 {
      var init := es[..|es| - 1];
      assert init[i] == es[i];
      FoldLastWins(init, i, k, v);
    }
  }

  /** A key is defined exactly when some line defines it. */
  lemma DefinedByALine(lines: seq<string>, k: string)
    ensures k in EnvOf(lines) <==> exists i :: 0 <= i < |lines| && Defines(ParseLine(lines[i]), k)
  {
    var es := Entries(lines);
    FoldDefined(es, k);
    if k in EnvOf(lines) {
      var i :| 0 <= i < |es| && Defines(es[i], k);
      assert Defines(ParseLine(lines[i]), k);
    }
  }

  /** The last line that defines a key decides its value. */
  lemma LastLineWins(lines: seq<string>, i: nat, k: string, v: string)
    requires i < |lines| && ParseLine(lines[i]) == Some((k, v))
    requires forall j :: i < j < |lines| ==> !Defines(ParseLine(lines[j]), k)
    ensures k in EnvOf(lines) && EnvOf(lines)[k] == v
  {
    var es := Entries(lines);
    forall j | i < j < |es| ensures !Defines(es[j], k) {
      assert es[j] == ParseLine(lines[j]);
    }
    FoldLastWins(es, i, k, v);
  }

  // ----- the database settings -----

  datatype DbSettings = DbSettings(host: string, database: string, username: string, password: string)

  /** The `??` fallbacks for the connection test. */
  function DbSettingsOf(env: map<string, string>): DbSettings {
    DbSettings(
      if "DB_HOST" in env then env["DB_HOST"] else "127.0.0.1",
      if "DB_DATABASE" in env then env["DB_DATABASE"] else "forge",
      if "DB_USERNAME" in env then env["DB_USERNAME"] else "forge",
      if "DB_PASSWORD" in env then env["DB_PASSWORD"] else "")
  }

  /** A file with no line for a database setting gets that setting's
      default, and one with such a line gets the value of the last one. */
  lemma DbSettingsOfFile(content: string)
    ensures var lines := Split(content); var d := DbSettingsOf(EnvOf(lines));
      && ((forall i :: 0 <= i < |lines| ==> !Defines(ParseLine(lines[i]), "DB_HOST")) ==> d.host == "127.0.0.1")
      && ((forall i :: 0 <= i < |lines| ==> !Defines(ParseLine(lines[i]), "DB_DATABASE")) ==> d.database == "forge")
      && ((forall i :: 0 <= i < |lines| ==> !Defines(ParseLine(lines[i]), "DB_USERNAME")) ==> d.username == "forge")
      && ((forall i :: 0 <= i < |lines| ==> !Defines(ParseLine(lines[i]), "DB_PASSWORD")) ==> d.password == "")
  {
    var lines := Split(content);
    DefinedByALine(lines, "DB_HOST");
    DefinedByALine(lines, "DB_DATABASE");
    DefinedByALine(lines, "DB_USERNAME");
    DefinedByALine(lines, "DB_PASSWORD");
  }
}

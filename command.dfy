/** Choosing the shell command that runs a submitted file, from the file's
    extension and the platform. */
module Command {
  import opened Text

  /** A supported language: its file extensions and the command prefixes
      (the template text before the file name) on Unix and on Windows. */
  datatype Language = Language(extensions: set<string>, unixPrefix: string, windowsPrefix: string)

  /** The supported languages, in the order the table lists them. */
  const LANGUAGES: seq<Language> := [
    Language({"jar"}, "java -jar ", "java -jar "),
    Language({"js"}, "node ", "node "),
    Language({"py", "pyc"}, "python3 ", "python ")
  ]

  /** The command prefix for a file of no supported language. */
  const DEFAULT_PREFIX: string := "./"

  /** `f.split(".")[-1]`: the text after the last dot, or all of `f` when it
      has none.  It is the longest suffix of `f` without a dot. */
  function Extension(f: string): (e: string)
    ensures '.' !in e
    ensures |e| <= |f| && f[|f| - |e|..] == e
    ensures |e| == |f| || f[|f| - |e| - 1] == '.'
  {
    var parts := Split(f, '.');
    var e := parts[|parts| - 1];
    JoinLastPart(parts, '.');
    e
  }

  /** Joining ends with the last part, after a separator when there are
      several parts. */
  lemma {:induction false} JoinLastPart(parts: seq<string>, sep: char)
    requires |parts| >= 1
    ensures var j, e := Join(parts, [sep]), parts[|parts| - 1];
      |e| <= |j| && j[|j| - |e|..] == e && (|parts| == 1 || (|e| < |j| && j[|j| - |e| - 1] == sep))
  {
    if |parts| > 1 {
      var j, e := Join(parts, [sep]), parts[|parts| - 1];
      var tail := Join(parts[1..], [sep]);
      JoinLastPart(parts[1..], sep);
      assert j == parts[0] + [sep] + tail;
      assert parts[1..][|parts[1..]| - 1] == e;
      assert j[|j| - |e|..] == tail[|tail| - |e|..];
      if |parts| > 2 {
        assert j[|j| - |e| - 1] == tail[|tail| - |e| - 1];
      } else {
        assert tail == e;
      }
    }
  }

  /** The extension is the only dot-free suffix reaching back to a dot or to
      the start of the name. */
  lemma ExtensionUnique(f: string, e: string)
    requires '.' !in e
    requires |e| <= |f| && f[|f| - |e|..] == e
    requires |e| == |f| || f[|f| - |e| - 1] == '.'
    ensures Extension(f) == e
  {
    var x := Extension(f);
    assert x == f[|f| - |x|..];
  }

  /** The prefix of a language on the given platform. */
  function PrefixOn(lang: Language, onWindows: bool): string {
    if onWindows then lang.windowsPrefix else lang.unixPrefix
  }

  /** The loop of `get_command`: the first language in `table` whose
      extensions hold `ext` gives the prefix; none gives the default.  The
      command always ends with the file name. */
  function CommandFrom(table: seq<Language>, ext: string, f: string, onWindows: bool): (c: string)
    ensures |f| <= |c| && c[|c| - |f|..] == f
  {
    if table == [] then DEFAULT_PREFIX + f
    else if ext in table[0].extensions then PrefixOn(table[0], onWindows) + f
    else CommandFrom(table[1..], ext, f, onWindows)
  }

  /** `get_command`, with the platform test passed in. */
  function GetCommand(f: string, onWindows: bool): (c: string)
    ensures |f| <= |c| && c[|c| - |f|..] == f
  {
    CommandFrom(LANGUAGES, Extension(f), f, onWindows)
  }

  /** No extension belongs to two languages of the table. */
  predicate Disjoint(table: seq<Language>) {
    forall i, j :: 0 <= i < j < |table| ==> table[i].extensions !! table[j].extensions
  }

  lemma LanguagesDisjoint()
    ensures Disjoint(LANGUAGES)
  {
  }

  /** In a table whose languages share no extension, the order of the table
      does not matter: the language holding the extension gives the prefix. */
  lemma {:induction false} CommandFromFinds(table: seq<Language>, ext: string, f: string, onWindows: bool, i: nat)
    requires Disjoint(table)
    requires i < |table| && ext in table[i].extensions
    ensures CommandFrom(table, ext, f, onWindows) == PrefixOn(table[i], onWindows) + f
  {
    if i > 0 {
      assert table[0].extensions !! table[i].extensions;
      assert table[1..][i - 1] == table[i];
      CommandFromFinds(table[1..], ext, f, onWindows, i - 1);
    }
  }

  /** An extension of no language gives the default command. */
  lemma {:induction false} CommandFromDefault(table: seq<Language>, ext: string, f: string, onWindows: bool)
    requires forall i :: 0 <= i < |table| ==> ext !in table[i].extensions
    ensures CommandFrom(table, ext, f, onWindows) == DEFAULT_PREFIX + f
  {
    if table != [] {
      assert forall i :: 0 <= i < |table[1..]| ==> table[1..][i] == table[i + 1];
      CommandFromDefault(table[1..], ext, f, onWindows);
    }
  }

  /** The whole mapping: Java archives and JavaScript run the same way
      everywhere, Python runs as `python3` on Unix and `python` on Windows,
      and anything else runs directly. */
  lemma GetCommandCases(f: string, onWindows: bool)
    ensures var e := Extension(f);
      GetCommand(f, onWindows) ==
        if e == "jar" then "java -jar " + f
        else if e == "js" then "node " + f
        else if e == "py" || e == "pyc" then (if onWindows then "python " else "python3 ") + f
        else "./" + f
  {
    var e := Extension(f);
    LanguagesDisjoint();
    if e == "jar" {
      CommandFromFinds(LANGUAGES, e, f, onWindows, 0);
    } else if e == "js" {
      CommandFromFinds(LANGUAGES, e, f, onWindows, 1);
    } else if e == "py" || e == "pyc" {
      CommandFromFinds(LANGUAGES, e, f, onWindows, 2);
    } else {
      CommandFromDefault(LANGUAGES, e, f, onWindows);
    }
  }

  // The cases the test suite fixes, one file name per lemma; each command
  // is written as prefix + file name.
  lemma GetCommandNoExtension(onWindows: bool)
    ensures GetCommand("main", onWindows) == "./" + "main"
  {
    ExtensionUnique("main", "main");
    GetCommandCases("main", onWindows);
  }

  lemma GetCommandUnknownExtension(onWindows: bool)
    ensures GetCommand("main.exe", onWindows) == "./" + "main.exe"
  {
    ExtensionUnique("main.exe", "exe");
    GetCommandCases("main.exe", onWindows);
  }

  lemma GetCommandPython(onWindows: bool)
    ensures GetCommand("main.py", onWindows) == (if onWindows then "python " else "python3 ") + "main.py"
  {
    ExtensionUnique("main.py", "py");
    GetCommandCases("main.py", onWindows);
  }

  lemma GetCommandCompiledPython(onWindows: bool)
    ensures GetCommand("main.pyc", onWindows) == (if onWindows then "python " else "python3 ") + "main.pyc"
  {
    ExtensionUnique("main.pyc", "pyc");
    GetCommandCases("main.pyc", onWindows);
  }
}

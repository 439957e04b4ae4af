/** The launcher descriptor: a freedesktop.org Desktop Entry rendered from a
    fixed template in which the SSB's name, the profile directory, the SSB
    id and the icon path are substituted verbatim (nothing is escaped).

    A Desktop Entry file is read line by line, so the module also gives the
    line structure: `JoinLines` and its inverse `SplitLines`. */
module DesktopEntries {

  import opened Wrappers

  /** The launcher command the `Exec=` key holds. */
  const Executable: string := "/usr/bin/floorp"

  /** The descriptor text as the source writes it: the six lines of the
      template separated by line feeds, with no trailing line feed. */
  function DesktopEntry(name: string, profileDir: string, id: string, iconPath: string): (text: string)
    ensures text == "[Desktop Entry]\nType=Application\nTerminal=false\nName=" + name
      + "\nExec=/usr/bin/floorp --profile \"" + profileDir + "\" --start-ssb \"" + id
      + "\"\nIcon=" + iconPath
  {
    TemplateText(name, profileDir, id, iconPath);
    JoinLines(ExpectedLines(name, profileDir, id, iconPath))
  }

  /** The same template without its last (`Icon=`) line. */
  function EntryHead(name: string, profileDir: string, id: string): string {
    JoinLines(HeadLines(name, profileDir, id))
  }

  /** The descriptor with the icon reference optional: without an icon the
      `Icon=` key is omitted. */
  function RenderEntry(name: string, profileDir: string, id: string, icon: Option<string>): (text: string)
    ensures icon.Some? ==> text == DesktopEntry(name, profileDir, id, icon.value)
    ensures NoLineFeed(name) && NoLineFeed(profileDir) && NoLineFeed(id)
        && (icon.Some? ==> NoLineFeed(icon.value))
      ==> SplitLines(text) == HeadLines(name, profileDir, id) + (if icon.Some? then ["Icon=" + icon.value] else [])
  {
    RenderedLines(name, profileDir, id, icon);
    match icon
    case Some(p) => DesktopEntry(name, profileDir, id, p)
    case None => EntryHead(name, profileDir, id)
  }

  /** The six lines a reader of the descriptor should find. */
  function ExpectedLines(name: string, profileDir: string, id: string, iconPath: string): seq<string> {
    HeadLines(name, profileDir, id) + ["Icon=" + iconPath]
  }

  function HeadLines(name: string, profileDir: string, id: string): seq<string> {
    [ "[Desktop Entry]",
      "Type=Application",
      "Terminal=false",
      "Name=" + name,
      "Exec=" + Executable + " --profile \"" + profileDir + "\" --start-ssb \"" + id + "\"" ]
  }

  predicate NoLineFeed(s: string) {
    '\n' !in s
  }

  /** Lines joined with a line feed between each two. */
  function JoinLines(lines: seq<string>): string {
    if |lines| == 0 then ""
    else if |lines| == 1 then lines[0]
    else lines[0] + "\n" + JoinLines(lines[1..])
  }

  /** A text cut at every line feed; never empty, no line holds a line feed. */
  function SplitLines(s: string): (lines: seq<string>)
    ensures |lines| >= 1
    ensures forall i :: 0 <= i < |lines| ==> NoLineFeed(lines[i])
  {
    if |s| == 0 then [""]
    else
      var rest := SplitLines(s[1..]);
      if s[0] == '\n' then [""] + rest
      else [[s[0]] + rest[0]] + rest[1..]
  }

  /** Joining the lines of a text gives the text back. */
  lemma {:induction false} JoinSplit(s: string)
    ensures JoinLines(SplitLines(s)) == s
  {
    if |s| > 0 {
      var rest := SplitLines(s[1..]);
      JoinSplit(s[1..]);
      if s[0] == '\n' {
        assert s == [s[0]] + s[1..];
      } else {
        var lines := SplitLines(s);
        assert lines[0] == [s[0]] + rest[0];
        if |rest| == 1 {
          assert lines == [[s[0]] + rest[0]];
        } else {
          assert lines[1..] == rest[1..];
          assert JoinLines(rest) == rest[0] + "\n" + JoinLines(rest[1..]);
        }
        assert s == [s[0]] + s[1..];
      }
    }
  }

  /** A line without a line feed reads back as one line. */
  lemma {:induction false} SplitSingleLine(a: string)
    requires NoLineFeed(a)
    ensures SplitLines(a) == [a]
  {
    if |a| > 0 {
      assert NoLineFeed(a[1..]) by {
        forall i | 0 <= i < |a[1..]| ensures a[1..][i] != '\n' { assert a[1..][i] == a[i + 1]; }
      }
      SplitSingleLine(a[1..]);
      assert [a[0]] + a[1..] == a;
    }
  }

  /** Splitting at a line feed splits the two sides independently. */
  lemma {:induction false} SplitAtLineFeed(a: string, b: string)
    ensures SplitLines(a + "\n" + b) == SplitLines(a) + SplitLines(b)
  {
    var s := a + "\n" + b;
    if |a| == 0 {
      assert s[1..] == b;
    } else {
      assert s[1..] == a[1..] + "\n" + b;
      SplitAtLineFeed(a[1..], b);
    }
  }

  /** Splitting joined lines that hold no line feed gives the lines back. */
  lemma {:induction false} SplitJoin(lines: seq<string>)
    requires |lines| >= 1
    requires forall i :: 0 <= i < |lines| ==> NoLineFeed(lines[i])
    ensures SplitLines(JoinLines(lines)) == lines
  {
    SplitSingleLine(lines[0]);
    if |lines| > 1 {
      SplitJoin(lines[1..]);
      SplitAtLineFeed(lines[0], JoinLines(lines[1..]));
    }
  }

  /** A text has one line more than it has line feeds. */
  lemma {:induction false} LineCount(s: string)
    ensures |SplitLines(s)| == multiset(s)['\n'] + 1
  {
    if |s| > 0 {
      LineCount(s[1..]);
      assert s == [s[0]] + s[1..];
      assert multiset(s) == multiset([s[0]]) + multiset(s[1..]);
    }
  }

  /** Joined lines read back as at least as many lines, and as more when
      one of them holds a line feed. */
  lemma {:induction false} JoinedLineCount(lines: seq<string>)
    requires |lines| >= 1
    ensures |SplitLines(JoinLines(lines))| >= |lines|
    ensures (exists i :: 0 <= i < |lines| && !NoLineFeed(lines[i])) ==> |SplitLines(JoinLines(lines))| > |lines|
  {
    LineCount(lines[0]);
    if |lines| > 1 {
      JoinedLineCount(lines[1..]);
      SplitAtLineFeed(lines[0], JoinLines(lines[1..]));
      if exists i :: 0 <= i < |lines| && !NoLineFeed(lines[i]) {
        var i :| 0 <= i < |lines| && !NoLineFeed(lines[i]);
        if i > 0 { assert lines[1..][i - 1] == lines[i]; }
      }
    }
  }

  /** When no field holds a line feed, a reader finds exactly the six
      template lines, the `Name=`, `Exec=` and `Icon=` values verbatim. */
  lemma DescriptorLines(name: string, profileDir: string, id: string, iconPath: string)
    requires NoLineFeed(name) && NoLineFeed(profileDir) && NoLineFeed(id) && NoLineFeed(iconPath)
    ensures SplitLines(DesktopEntry(name, profileDir, id, iconPath)) == ExpectedLines(name, profileDir, id, iconPath)
    ensures SplitLines(EntryHead(name, profileDir, id)) == HeadLines(name, profileDir, id)
  {
    SplitJoin(ExpectedLines(name, profileDir, id, iconPath));
    SplitJoin(HeadLines(name, profileDir, id));
  }

  /** `DescriptorLines` for the optional icon of `RenderEntry`. */
  lemma RenderedLines(name: string, profileDir: string, id: string, icon: Option<string>)
    ensures NoLineFeed(name) && NoLineFeed(profileDir) && NoLineFeed(id)
        && (icon.Some? ==> NoLineFeed(icon.value))
      ==> SplitLines(match icon
                     case Some(p) => DesktopEntry(name, profileDir, id, p)
                     case None => EntryHead(name, profileDir, id))
          == HeadLines(name, profileDir, id) + (if icon.Some? then ["Icon=" + icon.value] else [])
  {
    if NoLineFeed(name) && NoLineFeed(profileDir) && NoLineFeed(id) && (icon.Some? ==> NoLineFeed(icon.value)) {
      DescriptorLines(name, profileDir, id, if icon.Some? then icon.value else "");
    }
  }

  /** The template written out as one text (helpers below). */
  lemma TemplateText(name: string, profileDir: string, id: string, iconPath: string)
    ensures JoinLines(ExpectedLines(name, profileDir, id, iconPath))
      == "[Desktop Entry]\nType=Application\nTerminal=false\nName=" + name
      + "\nExec=/usr/bin/floorp --profile \"" + profileDir + "\" --start-ssb \"" + id
      + "\"\nIcon=" + iconPath
  {
    HeadPiece();
    ExecPiece();
    IconPiece();
    ExpectedLinesListed(name, profileDir, id, iconPath);
    JoinTemplate("[Desktop Entry]", "Type=Application", "Terminal=false", "Name=",
      "Exec=" + Executable + " --profile \"", "\" --start-ssb \"", "\"", "Icon=",
      "[Desktop Entry]\nType=Application\nTerminal=false\nName=", "\nExec=/usr/bin/floorp --profile \"",
      "\"\nIcon=", name, profileDir, id, iconPath);
  }

  /** The literal runs of the template between substituted fields, one
      per lemma. */
  lemma HeadPiece()
    ensures "[Desktop Entry]\nType=Application\nTerminal=false\nName="
      == "[Desktop Entry]" + "\n" + "Type=Application" + "\n" + "Terminal=false" + "\n" + "Name="
  {
  }

  lemma ExecPiece()
    ensures "\nExec=/usr/bin/floorp --profile \"" == "\n" + ("Exec=" + Executable + " --profile \"")
  {
  }

  lemma IconPiece()
    ensures "\"\nIcon=" == "\"" + "\n" + "Icon="
  {
  }

  lemma ExpectedLinesListed(name: string, profileDir: string, id: string, iconPath: string)
    ensures ExpectedLines(name, profileDir, id, iconPath)
      == ["[Desktop Entry]", "Type=Application", "Terminal=false", "Name=" + name,
          ("Exec=" + Executable + " --profile \"") + profileDir + "\" --start-ssb \"" + id + "\"",
          "Icon=" + iconPath]
  {
  }

  /** Six lines joined, written out. */
  lemma JoinSix(l0: string, l1: string, l2: string, l3: string, l4: string, l5: string)
    ensures JoinLines([l0, l1, l2, l3, l4, l5])
      == l0 + "\n" + (l1 + "\n" + (l2 + "\n" + (l3 + "\n" + (l4 + "\n" + l5))))
  {
    var s := [l0, l1, l2, l3, l4, l5];
    assert s[1..][1..][1..][1..][1..] == [l5];
    assert JoinLines(s[1..][1..][1..][1..]) == l4 + "\n" + l5;
    assert JoinLines(s[1..][1..][1..]) == l3 + "\n" + (l4 + "\n" + l5);
    assert JoinLines(s[1..][1..]) == l2 + "\n" + (l3 + "\n" + (l4 + "\n" + l5));
  }

  /** Joining six lines of the template's shape, with its literal runs
      abstracted as `h`, `x` and `y`. */
  lemma JoinTemplate(a: string, b: string, c: string, nm: string, ex: string, q: string, r: string, ik: string,
                     h: string, x: string, y: string, n: string, p: string, i: string, ic: string)
    requires h == a + "\n" + b + "\n" + c + "\n" + nm
    requires x == "\n" + ex
    requires y == r + "\n" + ik
    ensures JoinLines([a, b, c, nm + n, ex + p + q + i + r, ik + ic]) == h + n + x + p + q + i + y + ic
  {
    JoinSix(a, b, c, nm + n, ex + p + q + i + r, ik + ic);
  }

  /** Because nothing is escaped, the descriptor has its six lines exactly
      when none of the substituted fields holds a line feed; a line feed in
      the name, say, starts a line of its own that a reader takes for a key. */
  lemma SixLinesIffNoLineFeed(name: string, profileDir: string, id: string, iconPath: string)
    ensures |SplitLines(DesktopEntry(name, profileDir, id, iconPath))| == 6
      <==> NoLineFeed(name) && NoLineFeed(profileDir) && NoLineFeed(id) && NoLineFeed(iconPath)
  {
    if NoLineFeed(name) && NoLineFeed(profileDir) && NoLineFeed(id) && NoLineFeed(iconPath) {
      DescriptorLines(name, profileDir, id, iconPath);
    } else {
      var e := ExpectedLines(name, profileDir, id, iconPath);
      if !NoLineFeed(name) {
        assert !NoLineFeed(e[3]);
      } else if !NoLineFeed(iconPath) {
        assert !NoLineFeed(e[5]);
      } else {
        assert !NoLineFeed(e[4]);
      }
      JoinedLineCount(e);
    }
  }
}

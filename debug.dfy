/** The string helpers and the logger's level algebra of the debugging
    module: padding text with newlines, cutting text to a width, the
    key/value table, and the set of message types a logger lets through. */
module Debug {
  import opened Wrappers

  /** ASCII lower-casing of one character. */
  function LowerChar(c: char): char {
    if 'A' <= c <= 'Z' then (c as int - 'A' as int + 'a' as int) as char else c
  }

  /** `s.lower()` on ASCII text. */
  function Lower(s: string): (r: string)
    ensures |r| == |s|
    ensures forall i :: 0 <= i < |s| ==> r[i] == LowerChar(s[i])
  {
    if s == [] then [] else [LowerChar(s[0])] + Lower(s[1..])
  }

  /** `"".join("\n" for x in range(n))`: n newlines, none when n <= 0. */
  function Newlines(n: int): (r: string)
    ensures |r| == (if n < 0 then 0 else n)
    ensures forall i :: 0 <= i < |r| ==> r[i] == '\n'
    decreases if n < 0 then 0 else n
  {
    if n <= 0 then "" else "\n" + Newlines(n - 1)
  }

  /** How many newlines `padd` puts before the text. */
  function TopCount(padding: Option<string>, size: int): nat {
    if padding.Some? && Lower(padding.value) in {"top", "all"} && size > 0 then size else 0
  }

  /** How many newlines `padd` puts after the text. */
  function BottomCount(padding: Option<string>, size: int): nat {
    if padding.Some? && Lower(padding.value) in {"bottom", "all"} && size > 0 then size else 0
  }

  /** `padd(text, padding, size)`: newlines above, below or around the
      text, chosen by the padding name in any letter case; a missing or
      empty padding returns the text as it is. */
  function Padd(text: string, padding: Option<string>, size: int): (r: string)
    ensures padding.None? || padding == Some("") ==> r == text
  {
    if padding.None? || padding.value == "" then text
    else
      var p := Lower(padding.value);
      var top := if p == "top" || p == "all" then Newlines(size) else "";
      var bottom := if p == "bottom" || p == "all" then Newlines(size) else "";
      top + text + bottom
  }

  /** The padded text is the text framed by exactly TopCount newlines
      before it and BottomCount after it, so stripping them gives the text
      back. */
  lemma PaddFrame(text: string, padding: Option<string>, size: int)
    ensures var r, t, b := Padd(text, padding, size), TopCount(padding, size), BottomCount(padding, size);
            |r| == t + |text| + b && r[t..t + |text|] == text &&
            (forall i :: 0 <= i < t ==> r[i] == '\n') &&
            (forall i :: t + |text| <= i < |r| ==> r[i] == '\n')
  {
    var r := Padd(text, padding, size);
    if padding.Some? && padding.value != "" {
      var p := Lower(padding.value);
      var top := if p == "top" || p == "all" then Newlines(size) else "";
      var bottom := if p == "bottom" || p == "all" then Newlines(size) else "";
      assert r == top + text + bottom;
      assert r[|top|..|top| + |text|] == text;
    }
  }

  /** Any padding name other than top, bottom and all (in any case) leaves
      the text unchanged. */
  lemma PaddOther(text: string, padding: string, size: int)
    requires Lower(padding) !in {"top", "bottom", "all"}
    ensures Padd(text, Some(padding), size) == text
  {
    PaddFrame(text, Some(padding), size);
    assert Padd(text, Some(padding), size)[0..|text|] == Padd(text, Some(padding), size);
  }

  /** The letter case of the padding name does not matter. */
  lemma PaddCaseInsensitive(text: string, padding: string, size: int)
    requires padding != []
    ensures Padd(text, Some(padding), size) == Padd(text, Some(Lower(padding)), size)
  {
    var l := Lower(padding);
    assert Lower(l) == l by {
      forall i | 0 <= i < |l| ensures LowerChar(l[i]) == l[i] {
      }
    }
  }

  /** The documented examples: one newline on top by default, five on both
      sides with "all". */
  lemma PaddExamples()
    ensures Padd("Hello world", Some("top"), 1) == "\nHello world"
    ensures Padd("Hello world", Some("ALL"), 5) == "\n\n\n\n\nHello world\n\n\n\n\n"
  {
    PaddTopExample();
    PaddAllExample();
  }

  lemma PaddTopExample()
    ensures Padd("Hello world", Some("top"), 1) == "\nHello world"
  {
    assert Lower("top") == "top";
    assert Newlines(1) == "\n";
    assert Padd("Hello world", Some("top"), 1) == Newlines(1) + "Hello world" + "";
  }

  lemma PaddAllExample()
    ensures Padd("Hello world", Some("ALL"), 5) == "\n\n\n\n\nHello world\n\n\n\n\n"
  {
    assert Lower("ALL") == "all";
    FiveNewlines();
    assert Padd("Hello world", Some("ALL"), 5) == Newlines(5) + "Hello world" + Newlines(5);
  }

  lemma FiveNewlines()
    ensures Newlines(5) == "\n\n\n\n\n"
  {
    assert Newlines(0) == "";
    assert Newlines(1) == "\n";
    assert Newlines(2) == "\n\n";
    assert Newlines(3) == "\n\n\n";
    assert Newlines(4) == "\n\n\n\n";
  }

  /** The escape character that starts a terminal colour code. */
  const Escape: char := '\U{1b}'

  /** `cut(text, length, replace_with)` on text without colour codes: text
      that fits is returned as it is; longer text keeps as many leading
      characters as leave room for the marker, followed by the marker. The
      loop walks the characters, counting them and remembering the last
      position that still fits; when not even one fits, no position is ever
      remembered and the cut fails. */
  method Cut(text: string, length: int, replaceWith: string) returns (r: Result<string>)
    requires forall i :: 0 <= i < |text| ==> text[i] != Escape
    ensures |text| <= length ==> r == Ok(text)
    ensures |text| > length && length >= |replaceWith| ==>
              r == Ok(text[..length - |replaceWith|] + replaceWith) && |r.value| == length
    ensures |text| > length && length < |replaceWith| ==> r.Err?
  {
    if |text| <= length {
      return Ok(text);
    }
    var limit := length + 1 - |replaceWith|;
    var chars := 0;
    var cutoff: Option<nat> := None;
    var i := 0;
    while i < |text|
      invariant 0 <= i <= |text|
      invariant chars == i
      invariant limit >= 1 ==> i <= limit
      invariant limit < 1 ==> i == 0
      invariant cutoff == if i == 0 then None else Some(i - 1)
    {
      chars := chars + 1;
      if chars <= limit {
        cutoff := Some(i);
      } else {
        break;
      }
      i := i + 1;
    }
    match cutoff
    case None =>
      r := Err("UnboundLocalError: cutoff");
    case Some(k) =>
      r := Ok(text[..k] + replaceWith);
  }

  /** `bold(text)`: the bold code, the text, the reset code. */
  function Bold(text: string): string {
    "\U{1b}[1m" + text + "\U{1b}[1;m"
  }

  /** `s.rjust(width, " ")`: spaces on the left up to the width. */
  function RJust(s: string, width: int): (r: string)
    ensures |r| == (if width > |s| then width else |s|)
    ensures r[|r| - |s|..] == s
    ensures forall i :: 0 <= i < |r| - |s| ==> r[i] == ' '
  {
    if width > |s| then Spaces(width - |s|) + s else s
  }

  function Spaces(n: nat): (r: string)
    ensures |r| == n && forall i :: 0 <= i < n ==> r[i] == ' '
  {
    if n == 0 then "" else " " + Spaces(n - 1)
  }

  /** The length of the longest key. */
  function MaxKeyLen(data: seq<(string, string)>): (m: nat)
    ensures forall i :: 0 <= i < |data| ==> |data[i].0| <= m
    ensures data != [] ==> exists i :: 0 <= i < |data| && |data[i].0| == m
  {
    if data == [] then 0
    else
      var rest := MaxKeyLen(data[1..]);
      if |data[0].0| >= rest then |data[0].0|
      else
        assert data[1..] != [];
        rest
  }

  /** One line of the table: the key right-aligned to the width, in bold,
      then the separator and the value. */
  function TableLine(key: string, value: string, width: int, separator: string): string {
    Bold(RJust(key, width)) + separator + value
  }

  /** The key column: one wider than the longest key, plus the padding. */
  function TableWidth(data: seq<(string, string)>, padding: int): int {
    MaxKeyLen(data) + 1 + padding
  }

  /** The lines of the table, one per pair, in order. */
  function TableLines(data: seq<(string, string)>, width: int, separator: string): (r: seq<string>)
    ensures |r| == |data|
    ensures forall i :: 0 <= i < |data| ==> r[i] == TableLine(data[i].0, data[i].1, width, separator)
  {
    if data == [] then []
    else [TableLine(data[0].0, data[0].1, width, separator)] + TableLines(data[1..], width, separator)
  }

  /** `"\n".join(lines)`. */
  function JoinLines(lines: seq<string>): string {
    if lines == [] then ""
    else if |lines| == 1 then lines[0]
    else lines[0] + "\n" + JoinLines(lines[1..])
  }

  /** `table_mapping(data, padding, separator)`: each key right-aligned in
      a column one wider than the longest key plus the padding, in bold,
      then the separator and the value; lines joined by newlines. An empty
      mapping gives the empty string. */
  function TableMapping(data: seq<(string, string)>, padding: int, separator: string): (r: string)
    ensures data == [] ==> r == ""
    ensures data != [] ==> |r| > 0
  {
    if data == [] then ""
    else
      var lines := TableLines(data, TableWidth(data, padding), separator);
      assert |lines[0]| > 0;
      JoinLineLength(lines);
      JoinLines(lines)
  }

  lemma {:induction false} JoinLineLength(lines: seq<string>)
    requires lines != []
    ensures |JoinLines(lines)| >= |lines[0]|
  {
  }

  /** With a non-negative padding every key sits at the right end of a
      column of the same width, one wider than the longest key plus the
      padding, so the separators line up. */
  lemma TableAligned(data: seq<(string, string)>, padding: int, i: nat)
    requires padding >= 0 && i < |data|
    ensures var w := TableWidth(data, padding);
            var k := RJust(data[i].0, w);
            |k| == w && k[w - |data[i].0|..] == data[i].0
  {
  }

  /** `text.split("\n")`: the pieces between newlines, always at least
      one. */
  function SplitLines(text: string): (r: seq<string>)
    ensures |r| >= 1
  {
    if text == [] then [""]
    else
      var rest := SplitLines(text[1..]);
      if text[0] == '\n' then [""] + rest else [[text[0]] + rest[0]] + rest[1..]
  }

  /** A piece without newlines joins the first line of what follows it. */
  lemma {:induction false} SplitLinesPrefix(a: string, b: string)
    requires '\n' !in a
    ensures SplitLines(a + b) == [a + SplitLines(b)[0]] + SplitLines(b)[1..]
  {
    if a != [] {
      assert (a + b)[0] == a[0] && (a + b)[1..] == a[1..] + b;
      SplitLinesPrefix(a[1..], b);
      var rest := SplitLines(a[1..] + b);
      assert rest[0] == a[1..] + SplitLines(b)[0] && rest[1..] == SplitLines(b)[1..];
      assert SplitLines(a + b) == [[a[0]] + rest[0]] + rest[1..];
      assert [a[0]] + (a[1..] + SplitLines(b)[0]) == a + SplitLines(b)[0];
    } else {
      assert a + b == b;
      var sb := SplitLines(b);
      assert sb == [sb[0]] + sb[1..];
      assert a + sb[0] == sb[0];
    }
  }

  /** Splitting at the newlines gives back lines that hold none. */
  lemma {:induction false} SplitJoinLines(lines: seq<string>)
    requires lines != []
    requires forall i :: 0 <= i < |lines| ==> '\n' !in lines[i]
    ensures SplitLines(JoinLines(lines)) == lines
  {
    if |lines| == 1 {
      SplitLinesPrefix(lines[0], "");
      assert lines[0] + "" == lines[0];
      assert SplitLines("") == [""];
      assert JoinLines(lines) == lines[0];
      assert SplitLines(lines[0]) == [lines[0] + ""];
    } else {
      var rest := JoinLines(lines[1..]);
      SplitJoinLines(lines[1..]);
      assert lines[0] + "\n" + rest == lines[0] + ("\n" + rest);
      SplitLinesPrefix(lines[0], "\n" + rest);
      assert ("\n" + rest)[0] == '\n' && ("\n" + rest)[1..] == rest;
      assert SplitLines("\n" + rest) == [""] + lines[1..];
      assert lines[0] + "" == lines[0];
      assert lines == [lines[0]] + lines[1..];
    }
  }

  /** The table has one line per pair, in order: the key right-aligned to
      one more than the longest key plus the padding, in bold, then the
      separator and the value, as long as no key, value or separator holds
      a newline. */
  lemma TableMappingLines(data: seq<(string, string)>, padding: int, separator: string)
    requires data != [] && '\n' !in separator
    requires forall i :: 0 <= i < |data| ==> '\n' !in data[i].0 && '\n' !in data[i].1
    ensures SplitLines(TableMapping(data, padding, separator)) == TableLines(data, TableWidth(data, padding), separator)
  {
    var w := TableWidth(data, padding);
    var lines := TableLines(data, w, separator);
    assert TableMapping(data, padding, separator) == JoinLines(lines);
    forall i | 0 <= i < |lines| ensures '\n' !in lines[i] {
      TableLineClean(data[i].0, w, separator, data[i].1);
    }
    SplitJoinLines(lines);
  }

  lemma TableLineClean(key: string, width: int, separator: string, value: string)
    requires '\n' !in key && '\n' !in separator && '\n' !in value
    ensures '\n' !in TableLine(key, value, width, separator)
  {
    if width > |key| {
      var sp := Spaces(width - |key|);
      assert '\n' !in sp by {
        forall j | 0 <= j < |sp| ensures sp[j] != '\n' { }
      }
    }
  }

  /** The first example of `table_mapping`'s documentation: both keys
      right-aligned to width 6, in bold, a space, the value. */
  lemma TableMappingExample()
    ensures TableMapping([("key1", "val1"), ("key2", "val2")], 1, " ") ==
            Bold("  key1") + " val1" + "\n" + Bold("  key2") + " val2"
  {
    var data := [("key1", "val1"), ("key2", "val2")];
    assert TableWidth(data, 1) == 6 by {
      assert data[1..] == [("key2", "val2")];
      assert data[1..][1..] == [];
    }
    var l1 := TableLine("key1", "val1", 6, " ");
    var l2 := TableLine("key2", "val2", 6, " ");
    ExampleLine("key1", "val1");
    ExampleLine("key2", "val2");
    assert TableLines(data, 6, " ") == [l1, l2];
    assert JoinLines([l1, l2]) == l1 + "\n" + l2 by {
      assert [l1, l2][1..] == [l2];
    }
    assert TableMapping(data, 1, " ") == l1 + "\n" + l2;
    var b1, b2 := Bold("  key1"), Bold("  key2");
    assert l1 == b1 + " val1" by {
      assert "  " + "key1" == "  key1";
      assert b1 + " " + "val1" == b1 + " val1";
    }
    assert l2 == b2 + " val2" by {
      assert "  " + "key2" == "  key2";
      assert b2 + " " + "val2" == b2 + " val2";
    }
    assert l1 + "\n" + (b2 + " val2") == b1 + " val1" + "\n" + b2 + " val2";
  }

  lemma ExampleLine(key: string, value: string)
    requires |key| == 4
    ensures TableLine(key, value, 6, " ") == Bold("  " + key) + " " + value
  {
    assert Spaces(2) == "  ";
  }

  /** Message types of the logger. */
  const Success: nat := 0
  const Error: nat := 1
  const Warning: nat := 2
  const Notice: nat := 3
  const Log: nat := 4
  const Timing: nat := 5
  const Count: nat := 6
  const Complete: nat := 7

  /** The level letters and the message types each admits. */
  const Levels: map<char, set<nat>> := map[
    'v' := {Success, Warning, Notice, Log, Timing, Count, Error, Complete},
    'l' := {Log, Notice, Warning, Error, Timing, Count},
    'n' := {Notice, Warning, Error},
    'w' := {Warning, Error},
    'd' := {Timing, Count},
    'e' := {Error},
    's' := {Success, Complete},
    't' := {Timing},
    'c' := {Count}
  ]

  /** The union of the types admitted by the letters of a level, as long
      as every letter is known. */
  function LevelUnion(level: string): (r: Option<set<nat>>)
    ensures r.Some? <==> forall i :: 0 <= i < |level| ==> level[i] in Levels
  {
    if level == [] then Some({})
    else if level[|level| - 1] !in Levels then None
    else match LevelUnion(level[..|level| - 1])
      case None => None
      case Some(s) => Some(s + Levels[level[|level| - 1]])
  }

  /** A type is admitted exactly when one of the level's letters admits
      it. */
  lemma {:induction false} LevelUnionMembers(level: string, t: nat)
    requires LevelUnion(level).Some?
    ensures t in LevelUnion(level).value <==> exists i :: 0 <= i < |level| && t in Levels[level[i]]
  {
    if level != [] {
      var init := level[..|level| - 1];
      LevelUnionMembers(init, t);
      if exists i :: 0 <= i < |level| && t in Levels[level[i]] {
        var i :| 0 <= i < |level| && t in Levels[level[i]];
        if i < |init| {
          assert init[i] == level[i];
        }
      }
      if exists i :: 0 <= i < |init| && t in Levels[init[i]] {
        var i :| 0 <= i < |init| && t in Levels[init[i]];
        assert level[i] == init[i];
      }
    }
  }

  /** Level "n" lets through notices, warnings and errors and nothing
      else; level "v" lets through every type. */
  lemma LevelExamples()
    ensures LevelUnion("n").Some? && LevelUnion("n").value == {Notice, Warning, Error}
    ensures LevelUnion("v").Some? && LevelUnion("v").value == {Success, Error, Warning, Notice, Log, Timing, Count, Complete}
  {
    assert "n"[..0] == "" && "v"[..0] == "";
    assert LevelUnion("") == Some({});
    assert Levels['n'] == {Notice, Warning, Error};
    assert Levels['v'] == {Success, Warning, Notice, Log, Timing, Count, Error, Complete};
    assert LevelUnion("n") == Some({} + Levels['n']);
    assert LevelUnion("v") == Some({} + Levels['v']);
  }

  /** A recorded level whose union is the admitted set admits a type
      exactly when one of the level's letters does. */
  lemma ShouldLogLetters(loglevel: Option<string>, levelmap: set<nat>, t: nat)
    ensures loglevel.Some? && LevelUnion(loglevel.value) == Some(levelmap) ==>
              (t in levelmap <==> exists i :: 0 <= i < |loglevel.value| && t in Levels[loglevel.value[i]])
  {
    if loglevel.Some? && LevelUnion(loglevel.value) == Some(levelmap) {
      LevelUnionMembers(loglevel.value, t);
    }
  }

  /** A logger: its pending messages, the types it lets through and the
      level that chose them. */
  class Logg {
    var message: seq<string>
    var levelmap: set<nat>
    var loglevel: Option<string>

    /** `Logg(*messages, loglevel=...)`: the messages, and the level set to
        the given one or "v". */
    constructor(messages: seq<string>, level: string)
      requires LevelUnion(if level == "" then "v" else level).Some?
      ensures message == messages
      ensures loglevel == Some(if level == "" then "v" else level)
      ensures levelmap == LevelUnion(if level == "" then "v" else level).value
    {
      message := messages;
      levelmap := {};
      loglevel := None;
      new;
      var r := SetLevel(if level == "" then "v" else level);
      loglevel := r.value;
    }

    /** `should_log(type)`: the type is in `levelmap`; once a level has been
        set, that is exactly when one of its letters admits the type. */
    predicate ShouldLog(t: nat): (b: bool)
      reads this
      ensures b <==> t in levelmap
      ensures loglevel.Some? && LevelUnion(loglevel.value) == Some(levelmap) ==>
                (b <==> exists i :: 0 <= i < |loglevel.value| && t in Levels[loglevel.value[i]])
    {
      ShouldLogLetters(loglevel, levelmap, t);
      t in levelmap
    }

    /** `add(*messages)`: the messages appended; the logger itself is
        returned. */
    method Add(messages: seq<string>) returns (r: Logg)
      modifies this
      ensures r == this
      ensures message == old(message) + messages
      ensures levelmap == old(levelmap) && loglevel == old(loglevel)
    {
      message := message + messages;
      r := this;
    }

    /** `set_level(level)`: an empty level changes nothing and answers
        None. Otherwise the admitted types become the union of those of the
        level's letters and the level is recorded; an unknown letter raises
        KeyError, leaving the union of the letters before it. */
    method SetLevel(level: string) returns (r: Result<Option<string>>)
      modifies this
      ensures message == old(message)
      ensures level == "" ==> r == Ok(None) && levelmap == old(levelmap) && loglevel == old(loglevel)
      ensures level != "" && LevelUnion(level).Some? ==>
                r == Ok(Some(level)) && loglevel == Some(level) && levelmap == LevelUnion(level).value
      ensures level != "" && LevelUnion(level).Some? ==>
                forall t :: ShouldLog(t) <==> exists i :: 0 <= i < |level| && t in Levels[level[i]]
      ensures LevelUnion(level).None? ==> r.Err? && loglevel == old(loglevel)
      ensures LevelUnion(level).None? ==>
                exists k :: 0 <= k < |level| && level[k] !in Levels && LevelUnion(level[..k]) == Some(levelmap)
    {
      if level == "" {
        return Ok(None);
      }
      levelmap := {};
      var i := 0;
      while i < |level|
        invariant 0 <= i <= |level|
        invariant message == old(message) && loglevel == old(loglevel)
        invariant LevelUnion(level[..i]) == Some(levelmap)
      {
        assert level[..i + 1][..i] == level[..i];
        if level[i] !in Levels {
          return Err("KeyError: unknown level");
        }
        levelmap := levelmap + Levels[level[i]];
        i := i + 1;
      }
      assert level[..i] == level;
      loglevel := Some(level);
      r := Ok(Some(level));
      forall t ensures ShouldLog(t) <==> exists j :: 0 <= j < |level| && t in Levels[level[j]] {
        LevelUnionMembers(level, t);
      }
    }
  }
}

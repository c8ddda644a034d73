/** The parts of the GUI (ui.py) that carry logic rather than widgets: the
    file-name sanitiser applied to a job's output name, the counter that
    names jobs `output0001.mp4`, `output0002.mp4`, ..., and the handler that
    records each row's status text and reads the detected range back out of
    the worker's "탐지 완료: S ~ E (총 N개)" message. */
module Ui {
  import opened Text
  import opened WorkerSpec

  // ---------------------------------------------------------------------
  // _sanitize_filename

  const DefaultName: string := "output.mp4"
  const DefaultRoot: string := "output"
  const DefaultExt: string := ".mp4"

  /** `os.sep` on the POSIX systems this model follows. */
  const PathSep: char := '/'

  predicate IsSep(c: char)
  {
    c == PathSep || c == '/' || c == '\\'
  }

  /** The characters Windows refuses in a file name, besides the separators. */
  predicate IsForbidden(c: char)
  {
    c == '<' || c == '>' || c == ':' || c == '"' || c == '|' || c == '?' || c == '*'
  }

  predicate DoubleDotAt(s: string, k: nat)
    requires k + 1 < |s|
  {
    s[k] == '.' && s[k + 1] == '.'
  }

  /** No two dots next to each other. */
  predicate NoDoubleDot(s: string)
  {
    forall k: nat :: k + 1 < |s| ==> !DoubleDotAt(s, k)
  }

  predicate NoSep(s: string)
  {
    forall k :: 0 <= k < |s| ==> !IsSep(s[k])
  }

  /** Neither end is whitespace (what `strip` leaves). */
  predicate Edges(s: string)
  {
    s == [] || (!IsSpace(s[0]) && !IsSpace(s[|s| - 1]))
  }

  /** The three `replace` calls on the path separators. */
  function ReplaceSeps(s: string): string
  {
    Replace(Replace(Replace(s, [PathSep], "_"), "/", "_"), "\\", "_")
  }

  lemma ReplaceSepsPointwise(s: string)
    ensures |ReplaceSeps(s)| == |s|
    ensures forall k :: 0 <= k < |s| ==> ReplaceSeps(s)[k] == if IsSep(s[k]) then '_' else s[k]
  {
    ReplaceCharPointwise(s, PathSep, '_');
    var a := Replace(s, [PathSep], "_");
    ReplaceCharPointwise(a, '/', '_');
    var b := Replace(a, "/", "_");
    ReplaceCharPointwise(b, '\\', '_');
  }

  /** `s` without its leading dots. */
  function SkipDots(s: string): (r: string)
    ensures |r| <= |s| && r == s[|s| - |r|..]
    ensures r == [] || r[0] != '.'
    ensures s != [] && s[0] == '.' ==> |r| < |s|
    decreases |s|
  {
    if s != [] && s[0] == '.' then SkipDots(s[1..]) else s
  }

  /** Skipping leading dots keeps a string free of separators. */
  lemma SkipDotsNoSep(s: string)
    requires NoSep(s)
    ensures NoSep(SkipDots(s))
  {
    var r := SkipDots(s);
    assert forall k :: 0 <= k < |r| ==> r[k] == s[|s| - |r| + k];
  }

  /** A character in front of a string without two dots in a row adds
      none, unless both are dots. */
  lemma ConsNoDoubleDot(c: char, tail: string)
    requires NoDoubleDot(tail)
    requires c == '.' && tail != [] ==> tail[0] != '.'
    ensures NoDoubleDot([c] + tail)
  {
    var r := [c] + tail;
    assert forall k: nat :: k + 1 < |r| && k > 0 ==> DoubleDotAt(r, k) == DoubleDotAt(tail, k - 1);
  }

  /** `re.sub(r'\.\.+', '_', s)`: scanning from the left, every run of two or
      more dots becomes one '_'; a lone dot stays. */
  function CollapseDots(s: string): (r: string)
    ensures r == [] <==> s == []
    ensures r != [] ==> (r[0] == s[0] || r[0] == '_') && (r[|r| - 1] == s[|s| - 1] || r[|r| - 1] == '_')
    ensures NoDoubleDot(r)
    ensures NoSep(s) ==> NoSep(r)
    decreases |s|
  {
    if s == [] then []
    else if |s| >= 2 && s[0] == '.' && s[1] == '.' then
      var rest := SkipDots(s);
      assert NoSep(s) ==> NoSep(rest) by {
        if NoSep(s) {
          SkipDotsNoSep(s);
        }
      }
      var tail := CollapseDots(rest);
      ConsNoDoubleDot('_', tail);
      "_" + tail
    else
      var tail := CollapseDots(s[1..]);
      ConsNoDoubleDot(s[0], tail);
      [s[0]] + tail
  }

  /** A string without two dots in a row is left as it is. */
  lemma {:induction false} CollapseIdentity(s: string)
    requires NoDoubleDot(s)
    ensures CollapseDots(s) == s
    decreases |s|
  {
    if s != [] {
      assert |s| >= 2 ==> !DoubleDotAt(s, 0);
      assert forall k: nat :: k + 1 < |s| - 1 ==> DoubleDotAt(s[1..], k) == DoubleDotAt(s, k + 1);
      CollapseIdentity(s[1..]);
      assert [s[0]] + s[1..] == s;
    }
  }

  /** `re.sub(r'[<>:"|?*]', '_', s)`. */
  function MapForbidden(s: string): (r: string)
    ensures |r| == |s|
    ensures forall k :: 0 <= k < |s| ==> r[k] == if IsForbidden(s[k]) then '_' else s[k]
  {
    if s == [] then [] else [if IsForbidden(s[0]) then '_' else s[0]] + MapForbidden(s[1..])
  }

  /** The name after every rewriting step, before the extension check. */
  function CleanName(name: string): string
  {
    MapForbidden(CollapseDots(ReplaceSeps(Strip(if name == [] then DefaultName else name))))
  }

  /** The extension check: a missing root becomes "output", a missing
      extension ".mp4". */
  function WithExtension(n: string): string
  {
    var parts := SplitExt(n);
    (if parts.0 == [] then DefaultRoot else parts.0) + (if parts.1 == [] then DefaultExt else parts.1)
  }

  /** `_sanitize_filename(name)`; an empty name stands for `None` too. */
  function SanitizeFilename(name: string): string
  {
    WithExtension(CleanName(name))
  }

  /** A name the sanitiser has nothing to rewrite in. */
  predicate Clean(s: string)
  {
    s != [] && Edges(s) && Safe(s) && NoDoubleDot(s)
  }

  /** No separator and no character Windows refuses. */
  predicate Safe(s: string)
  {
    NoSep(s) && forall k :: 0 <= k < |s| ==> !IsForbidden(s[k])
  }

  lemma SafeAppend(a: string, b: string)
    requires Safe(a) && Safe(b)
    ensures Safe(a + b)
  {
    assert forall k :: 0 <= k < |a + b| ==> (a + b)[k] == if k < |a| then a[k] else b[k - |a|];
  }

  lemma DefaultPieces()
    ensures Safe(DefaultRoot) && Safe(DefaultExt) && DefaultRoot + DefaultExt == DefaultName
    ensures Edges(DefaultRoot + DefaultExt) && NoDoubleDot(DefaultRoot + DefaultExt)
  {
    assert forall k :: 0 <= k < |DefaultRoot| ==> 'a' <= DefaultRoot[k] <= 'z';
    assert forall k :: 0 <= k < |DefaultExt| ==> DefaultExt[k] == '.' || 'a' <= DefaultExt[k] <= 'z' || DefaultExt[k] == '4';
    var d := DefaultRoot + DefaultExt;
    assert forall k :: 0 <= k < |d| && d[k] == '.' ==> k == 6;
  }

  /** The rewriting steps leave either nothing (a blank name) or a clean name. */
  lemma CleanNameIsClean(name: string)
    ensures var n := CleanName(name);
      (n == [] <==> Strip(if name == [] then DefaultName else name) == []) && (n == [] || Clean(n))
  {
    var a := Strip(if name == [] then DefaultName else name);
    var b := ReplaceSeps(a);
    SepsStage(a);
    var c := CollapseDots(b);
    assert Edges(c) && NoSep(c) && NoDoubleDot(c) && (c == [] <==> a == []) by {
      assert !IsSpace('_');
    }
    ForbiddenStage(c);
  }

  lemma SepsStage(a: string)
    requires Edges(a)
    ensures var b := ReplaceSeps(a); Edges(b) && NoSep(b) && (b == [] <==> a == [])
  {
    ReplaceSepsPointwise(a);
    assert !IsSpace('_');
  }

  lemma ForbiddenStage(c: string)
    requires Edges(c) && NoSep(c) && NoDoubleDot(c)
    ensures var n := MapForbidden(c); (n == [] <==> c == []) && (n == [] || Clean(n))
  {
    var n := MapForbidden(c);
    assert !IsSpace('_') && !IsSep('_');
    assert forall k: nat :: k + 1 < |n| ==> DoubleDotAt(n, k) == DoubleDotAt(c, k);
  }

  /** A clean name comes out of the rewriting steps unchanged. */
  lemma CleanFixed(s: string)
    requires Clean(s)
    ensures CleanName(s) == s
  {
    StripNonBlank(s);
    ReplaceSepsPointwise(s);
    assert ReplaceSeps(s) == s;
    CollapseIdentity(s);
    assert MapForbidden(s) == s;
  }

  /** Appending ".mp4" to a stem without separators that has a character
      other than a dot (at `j`) gives that extension. */
  lemma SplitExtMp4(stem: string, j: nat)
    requires j < |stem| && stem[j] != '.'
    requires forall k :: 0 <= k < |stem| ==> stem[k] != '/'
    ensures SplitExt(stem + DefaultExt) == (stem, DefaultExt)
  {
    var p := stem + DefaultExt;
    assert p[|stem|] == '.' && p[|stem| + 1] == 'm' && p[|stem| + 2] == 'p' && p[|stem| + 3] == '4';
    assert LastIndexOf(p, '.') == |stem|;
    assert forall k :: 0 <= k < |p| ==> p[k] != '/';
    assert LastIndexOf(p, '/') == -1;
    assert p[j] != '.';
    assert p[..|stem|] == stem && p[|stem|..] == DefaultExt;
  }

  /** What the extension check promises for a blank or clean name. */
  lemma WithExtensionSafe(n: string)
    requires n == [] || Clean(n)
    ensures var r := WithExtension(n);
      |r| >= 2 && r != ".." && Safe(r) && SplitExt(r).0 != []
  {
    var parts := SplitExt(n);
    DefaultPieces();
    if n == [] {
      SafeAppend(DefaultRoot, DefaultExt);
    } else if parts.1 != [] {
      assert WithExtension(n) == n;
      assert |n| == 2 ==> !DoubleDotAt(n, 0);
    } else {
      assert parts.0 == n;
      SafeAppend(n, DefaultExt);
    }
  }

  /** What the sanitiser promises for every input: no separator and no
      character Windows refuses, never "." or "..", and a non-empty root. */
  lemma SanitizeSafe(name: string)
    ensures var r := SanitizeFilename(name);
      && |r| >= 2 && r != ".."
      && (forall k :: 0 <= k < |r| ==> !IsSep(r[k]) && !IsForbidden(r[k]))
      && SplitExt(r).0 != []
  {
    CleanNameIsClean(name);
    WithExtensionSafe(CleanName(name));
  }

  /** A clean name other than "." comes out clean and with an extension. */
  lemma WithExtensionClean(n: string)
    requires Clean(n) && n != "."
    ensures Clean(WithExtension(n)) && SplitExt(WithExtension(n)).1 != []
  {
    var parts := SplitExt(n);
    if parts.1 != [] {
      assert WithExtension(n) == n;
    } else {
      assert parts.0 == n;
      var j: nat := if n[0] != '.' then 0 else 1;
      assert n[j] != '.' by {
        if j == 1 { assert !DoubleDotAt(n, 0); }
      }
      assert forall k :: 0 <= k < |n| ==> n[k] != '/';
      SplitExtMp4(n, j);
      if n[|n| - 1] == '.' {
        NoExtLastDot(n);
      }
      DefaultPieces();
      SafeAppend(n, DefaultExt);
      var r := n + DefaultExt;
      assert forall k: nat :: k + 1 < |r| ==> DoubleDotAt(r, k) == if k + 1 < |n| then DoubleDotAt(n, k) else false;
    }
  }

  /** A blank name comes out as "output.mp4", which is clean and has an extension. */
  lemma WithExtensionBlank()
    ensures WithExtension([]) == DefaultName
    ensures Clean(DefaultName) && SplitExt(DefaultName).1 != []
  {
    DefaultPieces();
    SplitExtMp4(DefaultRoot, 0);
  }

  /** Unless the rewritten name is a lone ".", the result is clean and has an
      extension, so sanitising it again changes nothing. */
  lemma SanitizeClean(name: string)
    requires CleanName(name) != "."
    ensures Clean(SanitizeFilename(name)) && SplitExt(SanitizeFilename(name)).1 != []
  {
    CleanNameIsClean(name);
    if CleanName(name) == [] {
      WithExtensionBlank();
    } else {
      WithExtensionClean(CleanName(name));
    }
  }

  /** A clean name other than "." that ends with a dot has an extension. */
  lemma NoExtLastDot(n: string)
    requires Clean(n) && n != "." && n[|n| - 1] == '.'
    ensures SplitExt(n).1 != []
  {
    assert |n| >= 2;
    assert LastIndexOf(n, '.') == |n| - 1;
    assert forall k :: 0 <= k < |n| ==> n[k] != '/';
    assert LastIndexOf(n, '/') == -1;
    assert !DoubleDotAt(n, |n| - 2);
  }

  /** A clean name with an extension is its own sanitised form. */
  lemma SanitizeFixed(s: string)
    requires Clean(s) && SplitExt(s).1 != []
    ensures SanitizeFilename(s) == s
  {
    CleanFixed(s);
  }

  lemma SanitizeIdempotent(name: string)
    requires CleanName(name) != "."
    ensures SanitizeFilename(SanitizeFilename(name)) == SanitizeFilename(name)
  {
    SanitizeClean(name);
    SanitizeFixed(SanitizeFilename(name));
  }

  /** A blank name (or none) becomes "output.mp4". */
  lemma SanitizeBlank(name: string)
    requires Strip(name) == []
    ensures SanitizeFilename(name) == DefaultName
  {
    WithExtensionBlank();
    if name == [] {
      CleanFixed(DefaultName);
      assert CleanName(name) == CleanName(DefaultName);
      SanitizeFixed(DefaultName);
    } else {
      CleanNameIsClean(name);
    }
  }

  /** The one input shape that escapes the ".." rewriting: a name that is a
      lone dot gets ".mp4" appended and comes out as "..mp4", which has no
      extension by `os.path.splitext`'s rule. */
  lemma SanitizeLoneDot(name: string)
    requires CleanName(name) == "."
    ensures SanitizeFilename(name) == "..mp4"
    ensures SplitExt(SanitizeFilename(name)).1 == []
  {
    assert SplitExt(".") == (".", []);
    assert "." + DefaultExt == "..mp4";
    var p := "..mp4";
    assert p[1] == '.' && p[2] != '.' && p[3] != '.' && p[4] != '.';
    assert LastIndexOf(p, '.') == 1;
  }

  /** Such a name exists: "." itself. */
  lemma LoneDotName(name: string)
    requires |name| == 1 && name[0] == '.'
    ensures CleanName(name) == "."
  {
    StripNonBlank(name);
    ReplaceSepsPointwise(name);
    assert ReplaceSeps(name) == name;
    CollapseIdentity(name);
    assert MapForbidden(name) == name;
  }

  // ---------------------------------------------------------------------
  // _generate_auto_filename

  /** `f"output{n:04d}.mp4"` for the counter's (non-negative) value. */
  function AutoName(n: nat): string
  {
    DefaultRoot + ZFill(n, 4) + DefaultExt
  }

  /** Different counter values give different names. */
  lemma AutoNameInjective(m: nat, n: nat)
    requires AutoName(m) == AutoName(n)
    ensures m == n
  {
    var zm, zn := ZFill(m, 4), ZFill(n, 4);
    assert |zm| == |zn|;
    assert AutoName(m)[|DefaultRoot|..|DefaultRoot| + |zm|] == zm;
    assert AutoName(n)[|DefaultRoot|..|DefaultRoot| + |zn|] == zn;
    ZFillInjective(m, n, 4);
  }

  /** A generated name passes the sanitiser unchanged. */
  lemma AutoNameFixed(n: nat)
    ensures SanitizeFilename(AutoName(n)) == AutoName(n)
  {
    var z := ZFill(n, 4);
    var s := AutoName(n);
    assert s == (DefaultRoot + z) + DefaultExt;
    assert forall k :: 0 <= k < |s| ==> s[k] == '.' || IsDigit(s[k]) || ('a' <= s[k] <= 'z');
    assert forall k :: 0 <= k < |s| && s[k] == '.' ==> k == |s| - 4;
    assert !IsSpace(s[0]) && !IsSpace(s[|s| - 1]);
    assert Clean(s);
    SplitExtMp4(DefaultRoot + z, 0);
    SanitizeFixed(s);
  }

  // ---------------------------------------------------------------------
  // _on_status

  /** The marker of the range-detection message. */
  const DetectedMarker: string := "탐지 완료:"

  /** A row's `_progress_status` entry. */
  datatype RowStatus = RowStatus(text: string, updated: bool)

  /** A row's `_segment_info` entry; an absent key reads as `None`. */
  datatype RangeInfo = RangeInfo(start: Option<int>, end: Option<int>)

  /** The two halves of "S ~ E" in a message, as the handler cuts them out:
      the text after the first ':' up to the next ':', cut before the first
      '(', stripped and split at '~'; `None` when the pieces do not match. */
  function RangeFields(msg: string): (r: Option<(string, string)>)
  {
    var parts := Split(msg, ':');
    if |parts| < 2 then None
    else
      var startEnd := Split(Strip(Split(parts[1], '(')[0]), '~');
      if |startEnd| != 2 then None else Some((startEnd[0], startEnd[1]))
  }

  /** Writing the two parsed halves into a row's entry: the entry is
      created if missing, then `start` and `end` are set in turn; a failed
      `int()` (`None`) stops there, leaving what was already written. */
  function ApplyRange(info: map<int, RangeInfo>, row: int, start: Option<int>, end: Option<int>): (r: map<int, RangeInfo>)
    ensures row in r && forall k :: k in r <==> k in info || k == row
    ensures forall k :: k in info && k != row ==> r[k] == info[k]
    ensures start.Some? && end.Some? ==> r[row] == RangeInfo(start, end)
    ensures start.Some? && end.None? ==> r[row].start == start
    ensures start.None? ==> r[row] == if row in info then info[row] else RangeInfo(None, None)
  {
    var entry := if row in info then info[row] else RangeInfo(None, None);
    if start.None? then info[row := entry]
    else if end.None? then info[row := entry.(start := start)]
    else info[row := RangeInfo(start, end)]
  }

  /** The range-parsing branch of `_on_status` on the `_segment_info` table. */
  function StatusInfo(info: map<int, RangeInfo>, row: int, msg: string): (r: map<int, RangeInfo>)
    ensures forall k :: k in info ==> k in r
    ensures forall k :: k in r ==> k in info || k == row
    ensures forall k :: k in info && k != row ==> r[k] == info[k]
    ensures !Contains(msg, DetectedMarker) || RangeFields(msg).None? ==> r == info
  {
    if !Contains(msg, DetectedMarker) then info
    else match RangeFields(msg)
      case None => info
      case Some(fields) =>
        ApplyRange(info, row, ParseInt(Strip(fields.0)), ParseInt(Strip(fields.1)))
  }

  /** A detection message whose two halves are `first` and `second` writes
      exactly what `int()` makes of them. */
  lemma StatusInfoFields(info: map<int, RangeInfo>, row: int, msg: string, first: string, second: string)
    requires Contains(msg, DetectedMarker) && RangeFields(msg) == Some((first, second))
    ensures StatusInfo(info, row, msg) == ApplyRange(info, row, ParseInt(Strip(first)), ParseInt(Strip(second)))
  {
  }

  /** "탐지 완료: a ~ b (t". */
  function DetectedLine(a: string, b: string, t: string): string
  {
    DetectedMarker + " " + a + " ~ " + b + " (" + t
  }

  lemma DetectedLineMarker(a: string, b: string, t: string)
    ensures Contains(DetectedLine(a, b, t), DetectedMarker)
  {
    var rest := a + " ~ " + b + " (" + t;
    assert DetectedLine(a, b, t) == DetectedMarker + " " + rest;
    ContainsPrefix(rest, DetectedMarker, " ");
  }

  /** The text between "탐지 완료:" and the '(' of a detection line. */
  function DetectedRange(a: string, b: string): string
  {
    a + " ~ " + b
  }

  /** Cutting at ':' leaves the marker's head and the rest of the line. */
  lemma DetectedLineColon(a: string, b: string, t: string)
    requires ':' !in a && ':' !in b && ':' !in t
    ensures Split(DetectedLine(a, b, t), ':') == ["탐지 완료", " " + DetectedRange(a, b) + " (" + t]
  {
    var head := "탐지 완료";
    var rest := " " + DetectedRange(a, b) + " (" + t;
    assert DetectedLine(a, b, t) == head + [':'] + rest;
    assert ':' !in head;
    assert ':' !in rest;
    SplitAtFirst(head, ':', rest);
    SplitNoSep(rest, ':');
  }

  /** Cutting the rest at '(' leaves the padded range in front. */
  lemma DetectedLineParen(a: string, b: string, t: string)
    requires '(' !in a && '(' !in b
    ensures Split(" " + DetectedRange(a, b) + " (" + t, '(')[0] == " " + DetectedRange(a, b) + " "
  {
    var inner := " " + DetectedRange(a, b) + " ";
    assert " " + DetectedRange(a, b) + " (" + t == inner + ['('] + t;
    assert '(' !in inner;
    SplitAtFirst(inner, '(', t);
  }

  /** Cutting the range at '~' leaves its two padded halves. */
  lemma DetectedRangeTilde(a: string, b: string)
    requires '~' !in a && '~' !in b
    ensures Split(DetectedRange(a, b), '~') == [a + " ", " " + b]
  {
    assert DetectedRange(a, b) == (a + " ") + ['~'] + (" " + b);
    assert '~' !in a + " ";
    SplitAtFirst(a + " ", '~', " " + b);
    assert '~' !in " " + b;
    SplitNoSep(" " + b, '~');
  }

  /** Stripping the padded range gives the range back. */
  lemma DetectedRangeStrip(a: string, b: string)
    requires a != [] && b != [] && !IsSpace(a[0]) && !IsSpace(b[|b| - 1])
    ensures Strip(" " + DetectedRange(a, b) + " ") == DetectedRange(a, b)
  {
    var x := DetectedRange(a, b);
    assert x[0] == a[0] && x[|x| - 1] == b[|b| - 1];
    StripPadded(" ", x, " ");
  }

  /** How the handler cuts such a line. */
  lemma DetectedLineFields(a: string, b: string, t: string)
    requires a != [] && b != [] && !IsSpace(a[0]) && !IsSpace(b[|b| - 1])
    requires ':' !in a && ':' !in b && ':' !in t
    requires '(' !in a && '(' !in b && '~' !in a && '~' !in b
    ensures RangeFields(DetectedLine(a, b, t)) == Some((a + " ", " " + b))
  {
    DetectedLineColon(a, b, t);
    DetectedLineParen(a, b, t);
    DetectedRangeStrip(a, b);
    DetectedRangeTilde(a, b);
  }

  /** `str(i)` has no space at its ends and none of ':', '(' or '~'. */
  lemma IntToStringPlain(i: int)
    ensures !IsSpace(IntToString(i)[0]) && !IsSpace(IntToString(i)[|IntToString(i)| - 1])
    ensures ':' !in IntToString(i) && '(' !in IntToString(i) && '~' !in IntToString(i)
  {
    var s := IntToString(i);
    assert forall k :: 0 <= k < |s| ==> s[k] == '-' || IsDigit(s[k]);
  }

  /** The worker's range message is a detection line. */
  lemma RangeMessageLine(s: int, e: int)
    ensures RangeMessage(s, e) == DetectedLine(IntToString(s), IntToString(e), "총 " + IntToString(e - s + 1) + "개)")
    ensures ':' !in "총 " + IntToString(e - s + 1) + "개)"
  {
    IntToStringPlain(e - s + 1);
  }

  /** `int()` reads back both padded halves of a range. */
  lemma PaddedHalves(s: int, e: int)
    ensures ParseInt(Strip(IntToString(s) + " ")) == Some(s)
    ensures ParseInt(Strip(" " + IntToString(e))) == Some(e)
  {
    var a, b := IntToString(s), IntToString(e);
    IntToStringPlain(s);
    IntToStringPlain(e);
    StripPadded([], a, " ");
    assert [] + a + " " == a + " ";
    StripPadded(" ", b, []);
    assert " " + b + [] == " " + b;
    ParseIntRoundTrip(s);
    ParseIntRoundTrip(e);
  }

  /** The range announced by the worker's message is read back exactly. */
  lemma RangeRoundTrip(info: map<int, RangeInfo>, row: int, s: int, e: int)
    ensures StatusInfo(info, row, RangeMessage(s, e)) == info[row := RangeInfo(Some(s), Some(e))]
  {
    var a, b := IntToString(s), IntToString(e);
    var t := "총 " + IntToString(e - s + 1) + "개)";
    RangeMessageLine(s, e);
    IntToStringPlain(s);
    IntToStringPlain(e);
    DetectedLineMarker(a, b, t);
    DetectedLineFields(a, b, t);
    StatusInfoFields(info, row, RangeMessage(s, e), a + " ", " " + b);
    PaddedHalves(s, e);
  }

  // ---------------------------------------------------------------------
  // The window's state

  class App {
    /** `_job_counter`. */
    var jobCounter: nat
    /** `_progress_status`: row to status text and "needs redisplay". */
    var progress: map<int, RowStatus>
    /** `_segment_info`: row to the detected range. */
    var segmentInfo: map<int, RangeInfo>

    constructor ()
      ensures jobCounter == 0 && progress == map[] && segmentInfo == map[]
    {
      jobCounter := 0;
      progress := map[];
      segmentInfo := map[];
    }

    /** `_generate_auto_filename`: counts one more job and names it. */
    method GenerateAutoFilename() returns (name: string)
      modifies this`jobCounter
      ensures jobCounter == old(jobCounter) + 1
      ensures name == AutoName(jobCounter)
    {
      jobCounter := jobCounter + 1;
      name := DefaultRoot + ZFill(jobCounter, 4) + DefaultExt;
    }

    /** `_on_status(row, msg)`: a row being tracked gets `msg` as its text,
        marked for redisplay; a range-detection message updates the row's
        range. A failing `int()` is caught and ends the handler. */
    method OnStatus(row: int, msg: string)
      modifies this`progress, this`segmentInfo
      ensures progress == if row in old(progress) then old(progress)[row := RowStatus(msg, true)] else old(progress)
      ensures segmentInfo == StatusInfo(old(segmentInfo), row, msg)
    {
      if row in progress {
        progress := progress[row := RowStatus(msg, true)];
      }
      if Contains(msg, DetectedMarker) {
        var fields := RangeFields(msg);
        if fields.Some? {
          var (first, second) := fields.value;
          StatusInfoFields(segmentInfo, row, msg, first, second);
          var table := segmentInfo;
          var entry := if row in table then table[row] else RangeInfo(None, None);
          segmentInfo := table[row := entry];
          var start := ParseInt(Strip(first));
          if start.None? {
            return;
          }
          entry := entry.(start := start);
          segmentInfo := table[row := entry];
          var end := ParseInt(Strip(second));
          if end.None? {
            return;
          }
          entry := entry.(end := end);
          segmentInfo := table[row := entry];
        }
      }
    }
  }
}

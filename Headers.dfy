/** The request-header text parser (utils.py `parse_headers_text`): one
    `Key: value` per line, keys checked against `ALLOWED_HEADER_PATTERN`
    and `BLOCKED_HEADERS`, values reduced to Latin-1. A `ValueError` is an
    `Err` carrying its message. */
module Headers {
  import opened Text

  datatype Parsed = Ok(headers: map<string, string>) | Err(message: string)

  /** What a blank text stands for. */
  const DefaultHeaders: map<string, string> := map[
    "User-Agent" := "Mozilla/5.0",
    "Referer" := "https://www.yasyadong.cc",
    "Origin" := "https://www.yasyadong.cc",
    "Accept" := "*/*",
    "Accept-Language" := "ko-KR,ko;q=0.9,ja;q=0.8,en;q=0.7"
  ]

  /** `BLOCKED_HEADERS`, compared with the key in lower case. */
  const BlockedHeaders: set<string> := {"host", "content-length", "transfer-encoding", "connection", "upgrade"}

  // ---------------------------------------------------------------------
  // Keys

  predicate IsAsciiLetter(c: char) { 'A' <= c <= 'Z' || 'a' <= c <= 'z' }

  predicate IsKeyChar(c: char) { IsAsciiLetter(c) || IsDigit(c) || c == '-' }

  /** `ALLOWED_HEADER_PATTERN`, `^[A-Za-z][A-Za-z0-9\-]*$`, matched against a stripped key. */
  predicate AllowedKey(k: string)
  {
    k != [] && IsAsciiLetter(k[0]) && forall i :: 1 <= i < |k| ==> IsKeyChar(k[i])
  }

  function LowerChar(c: char): char
  {
    if 'A' <= c <= 'Z' then (c as int - 'A' as int + 'a' as int) as char else c
  }

  /** `str.lower()` on the ASCII keys that reach the check. */
  function Lower(s: string): (r: string)
    ensures |r| == |s| && forall i :: 0 <= i < |s| ==> r[i] == LowerChar(s[i])
  {
    if s == [] then [] else [LowerChar(s[0])] + Lower(s[1..])
  }

  predicate Blocked(k: string) { Lower(k) in BlockedHeaders }

  /** Keys that differ only in letter case are blocked alike. */
  lemma BlockedIgnoresCase(k: string, k': string)
    requires |k| == |k'| && forall i :: 0 <= i < |k| ==> LowerChar(k[i]) == LowerChar(k'[i])
    ensures Blocked(k) == Blocked(k')
  {
    assert Lower(k) == Lower(k');
  }

  // ---------------------------------------------------------------------
  // Values

  predicate Latin1(s: string) { forall i :: 0 <= i < |s| ==> s[i] as int <= 0xFF }

  /** What one character of a value becomes: the typographic ellipsis and
      quotes their ASCII forms, other characters beyond Latin-1 nothing
      (`encode("latin-1", "ignore")`). */
  function CharImage(c: char): (r: string)
    ensures Latin1(r)
  {
    if c == '\U{2026}' then "..."
    else if c == '\U{201c}' || c == '\U{201d}' then "\""
    else if c == '\U{2018}' || c == '\U{2019}' then "'"
    else if c as int <= 0xFF then [c]
    else []
  }

  /** The value clean-up utils.py:61-63 evidently intends: every character
      replaced by its image. The parser uses `SanitizeValueAsWritten`. */
  function SanitizeValue(v: string): (r: string)
    ensures Latin1(r)
  {
    if v == [] then [] else CharImage(v[0]) + SanitizeValue(v[1..])
  }

  /** The clean-up works character by character. */
  lemma {:induction false} SanitizeAppend(a: string, b: string)
    ensures SanitizeValue(a + b) == SanitizeValue(a) + SanitizeValue(b)
    decreases |a|
  {
    if a == [] {
      assert a + b == b;
    } else {
      assert (a + b)[0] == a[0] && (a + b)[1..] == a[1..] + b;
      SanitizeAppend(a[1..], b);
      calc {
        SanitizeValue(a + b);
        CharImage(a[0]) + SanitizeValue(a[1..] + b);
        CharImage(a[0]) + (SanitizeValue(a[1..]) + SanitizeValue(b));
        (CharImage(a[0]) + SanitizeValue(a[1..])) + SanitizeValue(b);
      }
    }
  }

  /** A Latin-1 value is kept as it is, so cleaning up twice is cleaning up once. */
  lemma {:induction false} SanitizeKeepsLatin1(v: string)
    requires Latin1(v)
    ensures SanitizeValue(v) == v
    decreases |v|
  {
    if v != [] {
      assert forall i :: 0 <= i < |v[1..]| ==> v[1..][i] == v[i + 1];
      SanitizeKeepsLatin1(v[1..]);
      assert CharImage(v[0]) == [v[0]];
      assert [v[0]] + v[1..] == v;
    }
  }

  lemma SanitizeIdempotent(v: string)
    ensures SanitizeValue(SanitizeValue(v)) == SanitizeValue(v)
  {
    SanitizeKeepsLatin1(SanitizeValue(v));
  }

  /** What the second `replace` of utils.py:61 looks for: the quotes around
      the curly quote close the literal early, so the literal is the text
      between two `replace` calls. */
  const MisparsedPattern: string := ", \"\"\").replace("

  /** Python's `encode("latin-1", "ignore").decode("latin-1")`. */
  function Latin1Only(s: string): (r: string)
    ensures Latin1(r)
  {
    if s == [] then [] else (if s[0] as int <= 0xFF then [s[0]] else []) + Latin1Only(s[1..])
  }

  /** The clean-up as utils.py:61-63 writes it: the ellipsis, then the
      misparsed literal, then two replacements of the apostrophe by itself,
      then the Latin-1 filter. */
  function SanitizeValueAsWritten(v: string): (r: string)
    ensures Latin1(r)
  {
    var a := Replace(Replace(v, "\U{2026}", "..."), MisparsedPattern, "\"");
    var b := Replace(Replace(a, "'", "'"), "'", "'");
    Latin1Only(b)
  }

  /** As written, the `replace` calls leave a short value without an
      ellipsis untouched: only the Latin-1 filter acts on it. */
  lemma AsWrittenOnlyFilters(v: string)
    requires '\U{2026}' !in v && |v| < |MisparsedPattern|
    ensures SanitizeValueAsWritten(v) == Latin1Only(v)
  {
    ReplaceMissing(v, '\U{2026}', "...");
    ReplaceShort(v, MisparsedPattern, "\"");
    ReplaceSelf(v, "'");
  }

  lemma Latin1OnlyCurly()
    ensures Latin1Only("\U{201c}x\U{201d}") == "x"
  {
    var v := "\U{201c}x\U{201d}";
    assert Latin1Only(v) == [] + Latin1Only(v[1..]);
    assert v[1..][1..] == "\U{201d}";
  }

  lemma SanitizeCurly()
    ensures SanitizeValue("\U{201c}x\U{201d}") == "\"x\""
  {
    var v := "\U{201c}x\U{201d}";
    assert SanitizeValue(v) == "\"" + SanitizeValue(v[1..]);
    assert v[1..][1..] == "\U{201d}";
    assert SanitizeValue(v[1..]) == "x" + SanitizeValue(v[1..][1..]);
  }

  /** As written, curly quotes are dropped instead of turned into '"'. */
  lemma CurlyQuotesDroppedAsWritten()
    ensures SanitizeValueAsWritten("\U{201c}x\U{201d}") == "x"
    ensures SanitizeValue("\U{201c}x\U{201d}") == "\"x\""
  {
    AsWrittenOnlyFilters("\U{201c}x\U{201d}");
    Latin1OnlyCurly();
    SanitizeCurly();
  }

  /** So a header line whose value is in curly quotes loses the quotes. */
  lemma CurlyLineAsWritten(n: nat, k: string)
    requires AllowedKey(k) && !Blocked(k)
    ensures ParseLine(n, k + ": " + "\U{201c}x\U{201d}") == Entry(k, "x")
  {
    ParseLineSplitsAtFirstColon(n, k, "\U{201c}x\U{201d}");
    CurlyQuotesDroppedAsWritten();
  }

  // ---------------------------------------------------------------------
  // Lines

  /** Python's line boundaries for `str.splitlines()`. */
  predicate IsLineBreak(c: char)
  {
    c == '\n' || c == '\r' || c == '\U{0b}' || c == '\U{0c}' || ('\U{1c}' <= c <= '\U{1e}')
    || c == '\U{85}' || c == '\U{2028}' || c == '\U{2029}'
  }

  function FirstBreak(s: string): (j: nat)
    ensures j <= |s| && (j < |s| ==> IsLineBreak(s[j]))
    ensures forall k :: 0 <= k < j ==> !IsLineBreak(s[k])
  {
    if s == [] || IsLineBreak(s[0]) then 0 else 1 + FirstBreak(s[1..])
  }

  /** `str.splitlines()`: the pieces between line boundaries, "\r\n"
      counting as one; a final boundary does not start an empty line. */
  function SplitLines(s: string): (lines: seq<string>)
    ensures forall i, k :: 0 <= i < |lines| && 0 <= k < |lines[i]| ==> !IsLineBreak(lines[i][k])
    decreases |s|
  {
    if s == [] then []
    else
      var j := FirstBreak(s);
      if j == |s| then [s]
      else
        var next := if s[j] == '\r' && j + 1 < |s| && s[j + 1] == '\n' then j + 2 else j + 1;
        [s[..j]] + SplitLines(s[next..])
  }

  /** A line ended by '\n' is split off as it is. */
  lemma SplitLinesFirst(a: string, b: string)
    requires forall k :: 0 <= k < |a| ==> !IsLineBreak(a[k])
    ensures SplitLines(a + "\n" + b) == [a] + SplitLines(b)
  {
    var s := a + "\n" + b;
    assert s[|a|] == '\n';
    assert FirstBreak(s) == |a| by { FirstBreakAt(a, s); }
    assert s[..|a|] == a && s[|a| + 1..] == b;
  }

  lemma {:induction false} FirstBreakAt(a: string, s: string)
    requires |a| < |s| && s[..|a|] == a && IsLineBreak(s[|a|])
    requires forall k :: 0 <= k < |a| ==> !IsLineBreak(a[k])
    ensures FirstBreak(s) == |a|
    decreases |a|
  {
    if a != [] {
      FirstBreakAt(a[1..], s[1..]);
    }
  }

  function LinePrefix(n: nat): string { "줄 " + IntToString(n) + ": " }
  function EmptyKeyMessage(n: nat): string { LinePrefix(n) + "헤더 키가 비어있습니다" }
  function BadKeyMessage(n: nat, k: string): string { LinePrefix(n) + "잘못된 헤더 키 형식 '" + k + "'" }
  function BlockedKeyMessage(n: nat, k: string): string { LinePrefix(n) + "'" + k + "' 헤더는 보안상 설정할 수 없습니다" }

  /** What line number `n` contributes. */
  datatype Line = Skip | Entry(key: string, value: string) | Reject(message: string)

  /** One line: stripped; blank or without ':' it is skipped; otherwise it
      is split at its first ':', both sides stripped, and the key checked. */
  function ParseLine(n: nat, raw: string): (l: Line)
    ensures l.Entry? ==> AllowedKey(l.key) && !Blocked(l.key) && Latin1(l.value)
  {
    ParseStripped(n, Strip(raw))
  }

  function ParseStripped(n: nat, line: string): (l: Line)
    ensures l.Entry? ==> AllowedKey(l.key) && !Blocked(l.key) && Latin1(l.value)
  {
    var i := Find(line, ':');
    if line == [] || i < 0 then Skip
    else ParseParts(n, Strip(line[..i]), Strip(line[i + 1..]))
  }

  /** The key checks, in order: emptiness, the pattern, the blocked names. */
  function ParseParts(n: nat, k: string, v: string): (l: Line)
    ensures l.Entry? ==> AllowedKey(l.key) && !Blocked(l.key) && Latin1(l.value)
  {
    if k == [] then Reject(EmptyKeyMessage(n))
    else if !AllowedKey(k) then Reject(BadKeyMessage(n, k))
    else if Blocked(k) then Reject(BlockedKeyMessage(n, k))
    else Entry(k, SanitizeValueAsWritten(v))
  }

  /** A well-formed line is split at the first ':' only: the value keeps
      any further ':'. */
  lemma ParseLineSplitsAtFirstColon(n: nat, k: string, v: string)
    requires AllowedKey(k) && !Blocked(k)
    requires v != [] && !IsSpace(v[0]) && !IsSpace(v[|v| - 1])
    ensures ParseLine(n, k + ": " + v) == Entry(k, SanitizeValueAsWritten(v))
  {
    ColonLineParts(k, v);
  }

  /** How `k + ": " + v` is stripped and split. */
  lemma ColonLineParts(k: string, v: string)
    requires AllowedKey(k)
    requires v != [] && !IsSpace(v[0]) && !IsSpace(v[|v| - 1])
    ensures var raw := k + ": " + v;
      Strip(raw) == raw && Find(raw, ':') == |k| && Strip(raw[..|k|]) == k && Strip(raw[|k| + 1..]) == v
  {
    ColonLineStrip(k, v);
    ColonLineFind(k, v);
    ColonLineKey(k, v);
    ColonLineValue(k, v);
  }

  lemma ColonLineStrip(k: string, v: string)
    requires AllowedKey(k)
    requires v != [] && !IsSpace(v[|v| - 1])
    ensures Strip(k + ": " + v) == k + ": " + v
  {
    var raw := k + ": " + v;
    assert raw[0] == k[0] && raw[|raw| - 1] == v[|v| - 1];
    StripNonBlank(raw);
  }

  lemma ColonLineFind(k: string, v: string)
    requires AllowedKey(k)
    ensures Find(k + ": " + v, ':') == |k|
  {
    var raw := k + ": " + v;
    assert raw[|k|] == ':';
    assert forall j :: 0 <= j < |k| ==> raw[j] == k[j];
  }

  lemma ColonLineKey(k: string, v: string)
    requires AllowedKey(k)
    ensures |k| <= |k + ": " + v| && Strip((k + ": " + v)[..|k|]) == k
  {
    var raw := k + ": " + v;
    assert raw[..|k|] == k;
    StripNonBlank(k);
  }

  lemma ColonLineValue(k: string, v: string)
    requires v != [] && !IsSpace(v[0]) && !IsSpace(v[|v| - 1])
    ensures |k| + 1 <= |k + ": " + v| && Strip((k + ": " + v)[|k| + 1..]) == v
  {
    var raw := k + ": " + v;
    assert raw[|k| + 1..] == " " + v + [];
    StripPadded(" ", v, []);
  }

  /** Each line with its number passed to `classify`, the first numbered `n`. */
  function Numbered<T>(classify: (nat, string) -> T, lines: seq<string>, n: nat): (ls: seq<T>)
    ensures |ls| == |lines|
  {
    if lines == [] then []
    else [classify(n, lines[0])] + Numbered(classify, lines[1..], n + 1)
  }

  /** Line `j` is classified as line number `n + j`. */
  lemma {:induction false} NumberedAt<T>(classify: (nat, string) -> T, lines: seq<string>, n: nat)
    ensures forall j :: 0 <= j < |lines| ==> Numbered(classify, lines, n)[j] == classify(n + j, lines[j])
  {
    if lines != [] {
      NumberedAt(classify, lines[1..], n + 1);
      var ls, rest := Numbered(classify, lines, n), Numbered(classify, lines[1..], n + 1);
      assert ls == [classify(n, lines[0])] + rest;
      forall j | 0 < j < |lines|
        ensures ls[j] == classify(n + j, lines[j])
      {
        assert ls[j] == rest[j - 1] && lines[1..][j - 1] == lines[j];
      }
    }
  }

  /** The classified lines of a text, the first numbered `n`. */
  function Classify(lines: seq<string>, n: nat): (ls: seq<Line>)
    ensures |ls| == |lines|
  {
    Numbered(ParseLine, lines, n)
  }

  /** Line `j` is classified as line number `n + j`. */
  lemma ClassifyAt(lines: seq<string>, n: nat)
    ensures forall j :: 0 <= j < |lines| ==> Classify(lines, n)[j] == ParseLine(n + j, lines[j])
  {
    NumberedAt(ParseLine, lines, n);
  }

  /** The headers after the first `hi` lines, one dict update per entry,
      stopping at the first rejected line. */
  function Collect(ls: seq<Line>, hi: nat): Parsed
    requires hi <= |ls|
  {
    if hi == 0 then Ok(map[])
    else match Collect(ls, hi - 1)
      case Err(e) => Err(e)
      case Ok(m) => match ls[hi - 1]
        case Skip => Ok(m)
        case Entry(k, v) => Ok(m[k := v])
        case Reject(e) => Err(e)
  }

  /** `parse_headers_text` as a function of the text: a blank text gives
      the defaults, any other is collected line by line, lines numbered
      from 1 after the outer strip. */
  function ParseHeaders(text: string): Parsed
  {
    var t := Strip(text);
    if t == [] then Ok(DefaultHeaders)
    else
      var ls := Classify(SplitLines(t), 1);
      Collect(ls, |ls|)
  }

  /** A header the parser may return: the key matches the pattern and is
      not blocked, the value is Latin-1. */
  predicate ValidEntry(k: string, v: string)
  {
    AllowedKey(k) && !Blocked(k) && Latin1(v)
  }

  predicate ValidHeaders(m: map<string, string>)
  {
    forall k :: k in m ==> ValidEntry(k, m[k])
  }

  /** The lines a parser can produce: every entry has a valid key and value. */
  predicate ValidLines(ls: seq<Line>)
  {
    forall j :: 0 <= j < |ls| && ls[j].Entry? ==> AllowedKey(ls[j].key) && !Blocked(ls[j].key) && Latin1(ls[j].value)
  }

  lemma ClassifyValid(lines: seq<string>, n: nat)
    ensures ValidLines(Classify(lines, n))
  {
    ClassifyAt(lines, n);
  }

  lemma {:induction false} CollectValid(ls: seq<Line>, hi: nat)
    requires hi <= |ls| && ValidLines(ls) && Collect(ls, hi).Ok?
    ensures ValidHeaders(Collect(ls, hi).headers)
  {
    if hi > 0 {
      CollectValid(ls, hi - 1);
    }
  }

  /** A key is not blocked when its first letter is not that of a blocked
      name, or it is the initial of "upgrade" only and the length differs. */
  lemma NotBlockedByInitial(k: string)
    requires k != []
    requires LowerChar(k[0]) != 'h' && LowerChar(k[0]) != 'c' && LowerChar(k[0]) != 't'
    requires LowerChar(k[0]) == 'u' ==> |k| != 7
    ensures !Blocked(k)
  {
    assert Lower(k)[0] == LowerChar(k[0]);
  }

  /** A header whose initial no blocked name starts with (see
      `NotBlockedByInitial`). */
  predicate PlainEntry(k: string, v: string)
  {
    && AllowedKey(k) && Latin1(v)
    && LowerChar(k[0]) != 'h' && LowerChar(k[0]) != 'c' && LowerChar(k[0]) != 't'
    && (LowerChar(k[0]) == 'u' ==> |k| != 7)
  }

  lemma PlainHeadersValid(m: map<string, string>)
    requires forall k :: k in m ==> PlainEntry(k, m[k])
    ensures ValidHeaders(m)
  {
    forall k | k in m
      ensures ValidEntry(k, m[k])
    {
      NotBlockedByInitial(k);
    }
  }

  lemma DefaultPairsPlain()
    ensures PlainEntry("User-Agent", "Mozilla/5.0") && PlainEntry("Accept", "*/*")
    ensures PlainEntry("Referer", "https://www.yasyadong.cc") && PlainEntry("Origin", "https://www.yasyadong.cc")
  {
  }

  lemma LanguagePairPlain()
    ensures PlainEntry("Accept-Language", "ko-KR,ko;q=0.9,ja;q=0.8,en;q=0.7")
  {
  }

  /** The defaults pass the checks a parsed header must pass. */
  lemma DefaultHeadersValid()
    ensures ValidHeaders(DefaultHeaders)
  {
    DefaultPairsPlain();
    LanguagePairPlain();
    assert forall k :: k in DefaultHeaders ==> PlainEntry(k, DefaultHeaders[k]);
    PlainHeadersValid(DefaultHeaders);
  }

  /** Every key of the result matches the pattern and is not blocked in any
      letter case, and every value is Latin-1. */
  lemma ParseHeadersValid(text: string)
    requires ParseHeaders(text).Ok?
    ensures ValidHeaders(ParseHeaders(text).headers)
  {
    if Strip(text) == [] {
      DefaultHeadersValid();
    } else {
      var lines := SplitLines(Strip(text));
      ClassifyValid(lines, 1);
      CollectValid(Classify(lines, 1), |lines|);
    }
  }

  /** Once a line is rejected, the result is that rejection. */
  lemma {:induction false} CollectErrSticks(ls: seq<Line>, lo: nat, hi: nat)
    requires lo <= hi <= |ls| && Collect(ls, lo).Err?
    ensures Collect(ls, hi) == Collect(ls, lo)
    decreases hi - lo
  {
    if hi > lo {
      CollectErrSticks(ls, lo, hi - 1);
    }
  }

  /** An error names the first rejected line, and any rejected line makes
      the result an error. */
  lemma {:induction false} CollectError(ls: seq<Line>, hi: nat)
    requires hi <= |ls|
    ensures Collect(ls, hi).Err? <==> exists j :: 0 <= j < hi && ls[j].Reject?
    ensures Collect(ls, hi).Err? ==>
      exists j :: 0 <= j < hi && ls[j] == Reject(Collect(ls, hi).message) && forall i :: 0 <= i < j ==> !ls[i].Reject?
  {
    if hi > 0 {
      CollectError(ls, hi - 1);
    }
  }

  /** The stripped key of a line: the text before the first ':' of the
      stripped line, itself stripped; `None` for a blank line or one
      without ':', which the parser skips. */
  function KeyPart(raw: string): (k: Option<string>)
    ensures k.Some? ==> ':' in Strip(raw) && ':' !in k.value
  {
    var line := Strip(raw);
    var i := Find(line, ':');
    if i < 0 then None
    else
      var before := line[..i];
      StripLeftSuffix(before);
      StripRightPrefix(StripLeft(before));
      assert forall c :: c in Strip(before) ==> c in before;
      Some(Strip(before))
  }

  /** A line the parser raises on: it has a key, and the key is empty, does
      not match the pattern, or is blocked. */
  predicate BadLine(raw: string)
  {
    KeyPart(raw).Some? && !(AllowedKey(KeyPart(raw).value) && !Blocked(KeyPart(raw).value))
  }

  /** The message raised for a bad key `k` on line number `n`. */
  function RejectMessage(n: nat, k: string): string
  {
    if k == [] then EmptyKeyMessage(n)
    else if !AllowedKey(k) then BadKeyMessage(n, k)
    else BlockedKeyMessage(n, k)
  }

  /** One line: skipped exactly when it has no key, rejected exactly when
      its key is bad (with the message of the first failing check), and an
      entry for its key otherwise. */
  lemma ParseLineCases(n: nat, raw: string)
    ensures ParseLine(n, raw).Skip? <==> KeyPart(raw).None?
    ensures ParseLine(n, raw).Reject? <==> BadLine(raw)
    ensures BadLine(raw) ==> ParseLine(n, raw) == Reject(RejectMessage(n, KeyPart(raw).value))
    ensures KeyPart(raw).Some? && !BadLine(raw) ==> ParseLine(n, raw).Entry? && ParseLine(n, raw).key == KeyPart(raw).value
  {
    var line := Strip(raw);
    if line != [] && Find(line, ':') >= 0 {
      var k := Strip(line[..Find(line, ':')]);
      if k != [] && !AllowedKey(k) {
        assert ParseLine(n, raw) == Reject(BadKeyMessage(n, k));
      }
    }
  }

  /** `parse_headers_text` raises exactly when some line of the stripped
      text has an empty, malformed or blocked key, and the error is the
      message of the first such line, numbered from 1. */
  lemma ParseHeadersRejects(text: string)
    requires Strip(text) != []
    ensures var lines := SplitLines(Strip(text));
      ParseHeaders(text).Err? <==> exists j :: 0 <= j < |lines| && BadLine(lines[j])
    ensures var lines := SplitLines(Strip(text));
      ParseHeaders(text).Err? ==>
        exists j :: 0 <= j < |lines| && BadLine(lines[j]) && (forall i :: 0 <= i < j ==> !BadLine(lines[i]))
          && ParseHeaders(text).message == RejectMessage(j + 1, KeyPart(lines[j]).value)
  {
    var lines := SplitLines(Strip(text));
    var ls := Classify(lines, 1);
    ClassifyRejects(lines);
    CollectError(ls, |ls|);
  }

  /** The classified lines are rejections exactly at the bad lines, each
      with its line's message. */
  lemma ClassifyRejects(lines: seq<string>)
    ensures forall j :: 0 <= j < |lines| ==> (Classify(lines, 1)[j].Reject? <==> BadLine(lines[j]))
    ensures forall j :: 0 <= j < |lines| && BadLine(lines[j]) ==>
      Classify(lines, 1)[j] == Reject(RejectMessage(j + 1, KeyPart(lines[j]).value))
  {
    ClassifyAt(lines, 1);
    forall j | 0 <= j < |lines|
      ensures Classify(lines, 1)[j].Reject? <==> BadLine(lines[j])
      ensures BadLine(lines[j]) ==> Classify(lines, 1)[j] == Reject(RejectMessage(j + 1, KeyPart(lines[j]).value))
    {
      ParseLineCases(j + 1, lines[j]);
    }
  }

  /** The value of the last entry for key `k` among the first `hi` lines. */
  function LastEntry(ls: seq<Line>, hi: nat, k: string): Option<string>
    requires hi <= |ls|
  {
    if hi == 0 then None
    else if ls[hi - 1].Entry? && ls[hi - 1].key == k then Some(ls[hi - 1].value)
    else LastEntry(ls, hi - 1, k)
  }

  /** `LastEntry` is the entry for `k` with no later entry for `k`. */
  lemma {:induction false} LastEntryMeans(ls: seq<Line>, hi: nat, k: string, v: string)
    requires hi <= |ls|
    ensures LastEntry(ls, hi, k) == Some(v) <==>
      exists j :: 0 <= j < hi && ls[j] == Entry(k, v) && forall i :: j < i < hi ==> !(ls[i].Entry? && ls[i].key == k)
  {
    if hi > 0 {
      LastEntryMeans(ls, hi - 1, k, v);
    }
  }

  /** A key is in the result exactly when some line has an entry for it,
      and its value is that of the last such line. */
  lemma {:induction false} CollectLastWins(ls: seq<Line>, hi: nat, k: string)
    requires hi <= |ls| && Collect(ls, hi).Ok?
    ensures var m := Collect(ls, hi).headers;
      (k in m <==> LastEntry(ls, hi, k).Some?) && (k in m ==> m[k] == LastEntry(ls, hi, k).value)
  {
    if hi > 0 {
      CollectLastWins(ls, hi - 1, k);
    }
  }

  /** `parse_headers_text` over the lines of the stripped text, filling the
      dict in place and stopping at the first rejected line. */
  method ParseHeadersText(text: string) returns (r: Parsed)
    ensures r == ParseHeaders(text)
    ensures Strip(text) == [] ==> r == Ok(DefaultHeaders)
    ensures r.Ok? ==> ValidHeaders(r.headers)
  {
    var t := Strip(text);
    if t == [] {
      DefaultHeadersValid();
      return Ok(DefaultHeaders);
    }
    var lines := SplitLines(t);
    ghost var ls := Classify(lines, 1);
    ClassifyAt(lines, 1);
    var hdrs: map<string, string> := map[];
    var n := 0;
    while n < |lines|
      invariant 0 <= n <= |lines|
      invariant Collect(ls, n) == Ok(hdrs)
    {
      var line := ParseLine(n + 1, lines[n]);
      n := n + 1;
      match line
      case Skip =>
      case Reject(e) =>
        CollectErrSticks(ls, n, |ls|);
        return Err(e);
      case Entry(k, v) =>
        hdrs := hdrs[k := v];
    }
    ClassifyValid(lines, 1);
    CollectValid(ls, |ls|);
    r := Ok(hdrs);
  }
}

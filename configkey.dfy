/// `getEncryptedKey`: find the encrypted key in the application's configuration. The
/// file is read line by line; the first line that matches, as a whole, the pattern
/// `^\s*"encryptedKey":\s*"([a-zA-Z0-9]+)",?$` supplies the key (its capture group).
/// The pattern is written out here as a scanner over the line; `\s` is the C locale's
/// `isspace` (space and the characters 0x09 to 0x0D).
module ConfigKey {
  import opened Bytes
  import opened Seqs

  /** `\s`: space, tab, line feed, vertical tab, form feed or carriage return. */
  predicate IsSpace(c: char)
  {
    c == ' ' || '\t' <= c <= '\r'
  }

  /** `[a-zA-Z0-9]`. */
  predicate IsAlnum(c: char)
  {
    ('a' <= c <= 'z') || ('A' <= c <= 'Z') || ('0' <= c <= '9')
  }

  predicate AllSpace(s: string)
  {
    forall i :: 0 <= i < |s| ==> IsSpace(s[i])
  }

  predicate AllAlnum(s: string)
  {
    forall i :: 0 <= i < |s| ==> IsAlnum(s[i])
  }

  /** The literal part of the pattern before the value: `"encryptedKey":`. */
  const KeyName: string := "\"encryptedKey\":"

  /** The length of the leading run of `\s` in `s`. */
  function SpaceRun(s: string): (n: nat)
    ensures n <= |s| && AllSpace(s[..n])
    ensures n < |s| ==> !IsSpace(s[n])
  {
    if s != [] && IsSpace(s[0]) then 1 + SpaceRun(s[1..]) else 0
  }

  /** The length of the leading run of `[a-zA-Z0-9]` in `s`. */
  function AlnumRun(s: string): (n: nat)
    ensures n <= |s| && AllAlnum(s[..n])
    ensures n < |s| ==> !IsAlnum(s[n])
  {
    if s != [] && IsAlnum(s[0]) then 1 + AlnumRun(s[1..]) else 0
  }

  /** `std::regex_match(line, m, keyregex)`, with `m[1]` as the value: `None` when the
      line does not match. The pattern is consumed left to right, one stage per
      function below; each repetition in it is followed by a character it cannot
      consume, so taking each run whole decides the match. */
  function Match(line: string): (m: Option<string>)
    ensures m.Some? ==> |m.value| > 0 && AllAlnum(m.value)
  {
    AfterIndent(line[SpaceRun(line)..])
  }

  /** `"encryptedKey":`, then the rest. */
  function AfterIndent(s: string): (m: Option<string>)
    ensures m.Some? ==> |m.value| > 0 && AllAlnum(m.value)
  {
    if |KeyName| <= |s| && s[..|KeyName|] == KeyName then AfterName(s[|KeyName|..]) else None
  }

  /** `\s*`, then the rest. */
  function AfterName(s: string): (m: Option<string>)
    ensures m.Some? ==> |m.value| > 0 && AllAlnum(m.value)
  {
    QuotedValue(s[SpaceRun(s)..])
  }

  /** The opening quote, then the rest. */
  function QuotedValue(s: string): (m: Option<string>)
    ensures m.Some? ==> |m.value| > 0 && AllAlnum(m.value)
  {
    if s == [] || s[0] != '"' then None else ValueTail(s[1..])
  }

  /** `([a-zA-Z0-9]+)",?` up to the end of the line. */
  function ValueTail(s: string): (m: Option<string>)
    ensures m.Some? ==> |m.value| > 0 && AllAlnum(m.value)
  {
    var n := AlnumRun(s);
    if n == 0 || n == |s| || s[n] != '"' then None
    else if s[n + 1..] == "" || s[n + 1..] == "," then Some(s[..n])
    else None
  }

  /** The lines the pattern describes, part by part: leading `\s*`, the key name, `\s*`,
      the quoted value, and at most one comma. */
  datatype KeyLine = KeyLine(indent: string, gap: string, key: string, comma: bool)

  predicate WellFormed(kl: KeyLine)
  {
    AllSpace(kl.indent) && AllSpace(kl.gap) && |kl.key| > 0 && AllAlnum(kl.key)
  }

  function Render(kl: KeyLine): string
  {
    kl.indent + KeyName + kl.gap + "\"" + kl.key + "\"" + (if kl.comma then "," else "")
  }

  lemma {:induction false} SpaceRunOf(w: string, t: string)
    requires AllSpace(w) && (t == [] || !IsSpace(t[0]))
    ensures SpaceRun(w + t) == |w|
    decreases |w|
  {
    if w == [] {
      assert w + t == t;
    } else {
      assert (w + t)[1..] == w[1..] + t;
      SpaceRunOf(w[1..], t);
    }
  }

  lemma {:induction false} AlnumRunOf(k: string, t: string)
    requires AllAlnum(k) && (t == [] || !IsAlnum(t[0]))
    ensures AlnumRun(k + t) == |k|
    decreases |k|
  {
    if k == [] {
      assert k + t == t;
    } else {
      assert (k + t)[1..] == k[1..] + t;
      AlnumRunOf(k[1..], t);
    }
  }

  // Completeness, stage by stage.

  lemma ValueTailOf(key: string, tail: string)
    requires |key| > 0 && AllAlnum(key)
    ensures ValueTail(key + ("\"" + tail)) == if tail == "" || tail == "," then Some(key) else None
  {
    var s := key + ("\"" + tail);
    AlnumRunOf(key, "\"" + tail);
    assert s[|key|] == '"' && s[..|key|] == key && s[|key| + 1..] == tail;
  }

  lemma QuotedValueOf(rest: string)
    ensures QuotedValue("\"" + rest) == ValueTail(rest)
  {
    assert ("\"" + rest)[1..] == rest;
  }

  lemma AfterNameOf(gap: string, rest: string)
    requires AllSpace(gap) && rest != [] && rest[0] == '"'
    ensures AfterName(gap + rest) == QuotedValue(rest)
  {
    SpaceRunOf(gap, rest);
    assert (gap + rest)[|gap|..] == rest;
  }

  lemma AfterIndentOf(rest: string)
    ensures AfterIndent(KeyName + rest) == AfterName(rest)
  {
    assert (KeyName + rest)[..|KeyName|] == KeyName && (KeyName + rest)[|KeyName|..] == rest;
  }

  lemma MatchOf(indent: string, rest: string)
    requires AllSpace(indent) && |rest| > 0 && rest[0] == '"'
    ensures Match(indent + rest) == AfterIndent(rest)
  {
    SpaceRunOf(indent, rest);
    assert (indent + rest)[|indent|..] == rest;
  }

  lemma Nest(indent: string, gap: string, key: string, tail: string)
    ensures indent + KeyName + gap + "\"" + key + "\"" + tail ==
            indent + (KeyName + (gap + ("\"" + (key + ("\"" + tail)))))
  {
  }

  /** A line made of the pattern's parts followed by `tail` matches exactly when `tail`
      is empty or a single comma, and then yields the value. */
  lemma MatchWithTail(indent: string, gap: string, key: string, tail: string)
    requires AllSpace(indent) && AllSpace(gap) && |key| > 0 && AllAlnum(key)
    ensures Match(indent + KeyName + gap + "\"" + key + "\"" + tail) ==
              if tail == "" || tail == "," then Some(key) else None
  {
    var value := key + ("\"" + tail);
    var quoted := "\"" + value;
    var named := KeyName + (gap + quoted);
    Nest(indent, gap, key, tail);
    MatchOf(indent, named);
    AfterIndentOf(gap + quoted);
    AfterNameOf(gap, quoted);
    QuotedValueOf(value);
    ValueTailOf(key, tail);
  }

  /** Completeness: every line the pattern describes is accepted, with its value. */
  lemma RenderedLineMatches(kl: KeyLine)
    requires WellFormed(kl)
    ensures Match(Render(kl)) == Some(kl.key)
  {
    MatchWithTail(kl.indent, kl.gap, kl.key, if kl.comma then "," else "");
  }

  // Soundness, stage by stage.

  lemma ValueTailParts(s: string) returns (comma: bool)
    requires ValueTail(s).Some?
    ensures s == ValueTail(s).value + ("\"" + (if comma then "," else ""))
  {
    var n := AlnumRun(s);
    comma := s[n + 1..] == ",";
    assert s == s[..n] + ("\"" + s[n + 1..]);
  }

  lemma AfterNameParts(s: string) returns (gap: string)
    requires AfterName(s).Some?
    ensures |gap| + 1 <= |s| && AllSpace(gap) && s == gap + ("\"" + s[|gap| + 1..])
    ensures ValueTail(s[|gap| + 1..]) == AfterName(s)
  {
    var n := SpaceRun(s);
    gap := s[..n];
    var rest := s[n..];
    assert rest[1..] == s[n + 1..];
    assert s == gap + ("\"" + s[n + 1..]);
  }

  lemma MatchParts(line: string) returns (indent: string)
    requires Match(line).Some?
    ensures |indent| + |KeyName| <= |line|
    ensures AllSpace(indent) && line == indent + (KeyName + line[|indent| + |KeyName|..])
    ensures AfterName(line[|indent| + |KeyName|..]) == Match(line)
  {
    var n := SpaceRun(line);
    indent := line[..n];
    assert |indent| == n && Match(line) == AfterIndent(line[n..]);
    IndentThenKey(line, n, line[n..]);
  }

  lemma IndentThenKey(line: string, n: nat, rest: string)
    requires n <= |line| && rest == line[n..] && AfterIndent(rest).Some?
    ensures n + |KeyName| <= |line| && line == line[..n] + (KeyName + line[n + |KeyName|..])
    ensures AfterName(line[n + |KeyName|..]) == AfterIndent(rest)
  {
    AfterIndentParts(rest);
    SplitAfterIndent(line, n, rest);
  }

  lemma AfterIndentParts(s: string)
    requires AfterIndent(s).Some?
    ensures |KeyName| <= |s| && s == KeyName + s[|KeyName|..]
    ensures AfterName(s[|KeyName|..]) == AfterIndent(s)
  {
  }

  lemma SplitAfterIndent(line: string, n: nat, rest: string)
    requires n <= |line| && rest == line[n..] && |KeyName| <= |rest| && rest == KeyName + rest[|KeyName|..]
    ensures line == line[..n] + (KeyName + line[n + |KeyName|..])
    ensures rest[|KeyName|..] == line[n + |KeyName|..]
  {
    assert line == line[..n] + rest;
  }

  /** The parts of an accepted line. */
  lemma LineParts(line: string) returns (kl: KeyLine)
    requires Match(line).Some?
    ensures WellFormed(kl) && kl.key == Match(line).value
    ensures line == kl.indent + (KeyName + (kl.gap + ("\"" + (kl.key + ("\"" + (if kl.comma then "," else ""))))))
  {
    var indent := MatchParts(line);
    var named := line[|indent| + |KeyName|..];
    var gap := AfterNameParts(named);
    var value := named[|gap| + 1..];
    var comma := ValueTailParts(value);
    kl := KeyLine(indent, gap, Match(line).value, comma);
  }

  /** Soundness: an accepted line is one the pattern describes, and the value is its key. */
  lemma MatchedLineIsRendered(line: string)
    requires Match(line).Some?
    ensures exists kl :: WellFormed(kl) && Render(kl) == line && kl.key == Match(line).value
  {
    var kl := LineParts(line);
    Nest(kl.indent, kl.gap, kl.key, if kl.comma then "," else "");
    assert Render(kl) == line;
  }

  /** Both directions together: the accepted lines are exactly the renderings of
      well-formed key lines. */
  lemma MatchIffRendered(line: string, key: string)
    ensures Match(line) == Some(key) <==>
              exists kl :: WellFormed(kl) && Render(kl) == line && kl.key == key
  {
    if Match(line) == Some(key) {
      MatchedLineIsRendered(line);
    }
    if exists kl :: WellFormed(kl) && Render(kl) == line && kl.key == key {
      var kl :| WellFormed(kl) && Render(kl) == line && kl.key == key;
      RenderedLineMatches(kl);
    }
  }

  /** A line ending in a carriage return, as a CRLF file read with `getline` leaves it,
      never matches: the pattern ends with a quote or a comma. */
  lemma CarriageReturnRejected(line: string)
    requires |line| > 0 && line[|line| - 1] == '\r'
    ensures Match(line).None?
  {
    if Match(line).Some? {
      var kl := LineParts(line);
    }
  }

  /** No space is allowed between `"encryptedKey"` and its colon. */
  lemma SpaceBeforeColonRejected(indent: string, c: char, rest: string)
    requires AllSpace(indent) && IsSpace(c)
    ensures Match(indent + ("\"encryptedKey\"" + ([c] + rest))).None?
  {
    var s := "\"encryptedKey\"" + ([c] + rest);
    MatchOf(indent, s);
    assert s[14] == c;
    if |KeyName| <= |s| {
      assert s[..|KeyName|][14] != KeyName[14];
    }
  }

  /** The key name is matched case-sensitively. */
  lemma KeyNameCaseSensitive(indent: string, rest: string)
    requires AllSpace(indent)
    ensures Match(indent + ("\"EncryptedKey\":" + rest)).None?
  {
    var s := "\"EncryptedKey\":" + rest;
    MatchOf(indent, s);
    assert s[..|KeyName|][1] != KeyName[1];
  }

  /** The position of the first matching line, or `|lines|` when none matches. */
  function FirstMatch(lines: seq<string>): (k: nat)
    ensures k <= |lines|
    ensures k < |lines| ==> Match(lines[k]).Some?
  {
    if lines == [] then 0
    else if Match(lines[0]).Some? then 0
    else 1 + FirstMatch(lines[1..])
  }

  /** No line before the first match matches. */
  lemma {:induction false} NoMatchBeforeFirst(lines: seq<string>)
    ensures forall j :: 0 <= j < FirstMatch(lines) ==> Match(lines[j]).None?
    decreases |lines|
  {
    if lines != [] && Match(lines[0]).None? {
      NoMatchBeforeFirst(lines[1..]);
      forall j | 1 <= j < FirstMatch(lines)
        ensures Match(lines[j]).None?
      {
        assert lines[j] == lines[1..][j - 1];
      }
    }
  }

  /** What `getEncryptedKey` returns for a readable file: the first line's value, or `""`. */
  function FirstKey(lines: seq<string>): string
  {
    if FirstMatch(lines) < |lines| then Match(lines[FirstMatch(lines)]).value else ""
  }

  /** `getEncryptedKey(configfile)`. The file is `None` when it cannot be opened, and
      otherwise its lines as `getline` yields them. `linesRead` counts the lines taken
      from the file before the loop stops. */
  method GetEncryptedKey(config: Option<seq<string>>) returns (ekey: string, linesRead: nat)
    ensures config.None? ==> ekey == "" && linesRead == 0
    ensures config.Some? ==> ekey == FirstKey(config.value)
    ensures config.Some? ==>
              linesRead == if FirstMatch(config.value) < |config.value| then FirstMatch(config.value) + 1
                           else |config.value|
  {
    if config.None? {
      return "", 0;
    }
    var lines := config.value;
    var m: Option<string> := None;
    var found := false;
    linesRead := 0;
    while linesRead < |lines|
      invariant linesRead <= FirstMatch(lines)
      invariant !found && m.None?
    {
      var line := lines[linesRead];
      linesRead := linesRead + 1;
      m := Match(line);
      if m.Some? {
        found := true;
        break;
      }
      PastNonMatch(lines, linesRead - 1);
    }
    if !found {
      assert FirstKey(lines) == "";
      return "", linesRead;
    }
    NoMatchBeforeFirst(lines);
    assert linesRead - 1 == FirstMatch(lines);
    ekey := m.value;
  }

  lemma PastNonMatch(lines: seq<string>, i: nat)
    requires i <= FirstMatch(lines) && i < |lines| && Match(lines[i]).None?
    ensures i + 1 <= FirstMatch(lines)
  {
  }

  /** A key is found exactly when some line matches, and it is then a non-empty run of
      `[a-zA-Z0-9]`; otherwise the result is `""`. */
  lemma FirstKeyFound(lines: seq<string>)
    ensures FirstKey(lines) != "" <==> exists i :: 0 <= i < |lines| && Match(lines[i]).Some?
    ensures FirstKey(lines) != "" ==> AllAlnum(FirstKey(lines))
  {
    if exists i :: 0 <= i < |lines| && Match(lines[i]).Some? {
      var i :| 0 <= i < |lines| && Match(lines[i]).Some?;
      NoMatchBeforeFirst(lines);
      assert FirstMatch(lines) <= i;
    }
  }

  /** First match wins: lines after the first matching one are never consulted. */
  lemma {:induction false} LaterLinesIgnored(lines: seq<string>, more: seq<string>)
    requires FirstMatch(lines) < |lines|
    ensures FirstMatch(lines + more) == FirstMatch(lines)
    ensures FirstKey(lines + more) == FirstKey(lines)
    decreases |lines|
  {
    if Match(lines[0]).None? {
      assert (lines + more)[1..] == lines[1..] + more;
      LaterLinesIgnored(lines[1..], more);
    }
  }

  /** The shortest accepted layout: no indent, one space after the colon, no comma. */
  lemma PlainLineMatches(key: string)
    requires |key| > 0 && AllAlnum(key)
    ensures Match(KeyName + " " + "\"" + key + "\"") == Some(key)
  {
    MatchWithTail("", " ", key, "");
    DropEmptyEnds("", KeyName, " ", "\"", key, "\"", "");
  }

  /** A typical line of the configuration, with its two-space indent and trailing comma. */
  lemma TypicalLineMatches(key: string)
    requires |key| > 0 && AllAlnum(key)
    ensures Match("  " + KeyName + " " + "\"" + key + "\"" + ",") == Some(key)
  {
    MatchWithTail("  ", " ", key, ",");
  }
}

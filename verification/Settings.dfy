/** The settings file: which texts are accepted, what they store, and how a setting is found again. */
module Settings {
  import opened Words
  import opened Statuses

  const MAX_ENTRIES := 64
  const KEY_MAX := 64
  const VALUE_MAX := 256
  const LINE_MAX := VALUE_MAX + KEY_MAX + 8
  const PREFIX := "SOFTPLC_"

  datatype Entry = Entry(key: string, value: string)

  // ---------------------------------------------------------------- lexing

  predicate Blank(c: char) {
    c == ' ' || c == '\t' || c == '\r'
  }

  function TrimLeft(s: string): string {
    if s != "" && Blank(s[0]) then TrimLeft(s[1..]) else s
  }

  function TrimRight(s: string): (r: string)
    ensures |r| <= |s| && r == s[..|r|]
    ensures r != "" ==> !Blank(r[|r| - 1])
  {
    if s != "" && Blank(s[|s| - 1]) then TrimRight(s[..|s| - 1]) else s
  }

  function Trim(s: string): string {
    TrimRight(TrimLeft(s))
  }

  /** A comment starts at `i`: outside quotes, at the start of the line or after a space or tab. */
  predicate Comment(line: string, i: nat, quote: Option<char>)
    requires i < |line|
  {
    quote.None? && (line[i] == '#' || line[i] == ';') && (i == 0 || line[i - 1] == ' ' || line[i - 1] == '\t')
  }

  /** The quote open after reading `c`. */
  function After(c: char, quote: Option<char>): Option<char> {
    if quote.Some? then (if c == quote.value then None else quote)
    else if c == '"' || c == '\'' then Some(c)
    else None
  }

  /** Where a comment starts at or after `i`, given the quote open there; the end of the line if none does. */
  function CutAt(line: string, i: nat, quote: Option<char>): (c: nat)
    requires i <= |line|
    ensures i <= c <= |line|
    ensures c < |line| ==> Comment(line, c, None)
    decreases |line| - i
  {
    if i == |line| || Comment(line, i, quote) then i else CutAt(line, i + 1, After(line[i], quote))
  }

  function StripComment(line: string): string {
    line[..CutAt(line, 0, None)]
  }

  /** One layer of matched quotes removed. */
  function Unquote(s: string): (r: string)
    ensures |r| <= |s|
  {
    var n := |s|;
    if n >= 2 && (s[0] == '"' || s[0] == '\'') && s[n - 1] == s[0] then s[1..n - 1] else s
  }

  /** Index of the first `c`, or the length. */
  function IndexOf(s: string, c: char): (i: nat)
    ensures i <= |s| && (i < |s| ==> s[i] == c) && forall j :: 0 <= j < i ==> s[j] != c
  {
    if s == "" || s[0] == c then 0 else 1 + IndexOf(s[1..], c)
  }

  // ---------------------------------------------------------------- names

  predicate KeyChar(c: char) {
    'A' <= c <= 'Z' || '0' <= c <= '9' || c == '_'
  }

  /** A character in the environment-variable spelling. */
  function Upper(c: char): char {
    if c == '-' || c == '.' || c == ' ' then '_'
    else if 'a' <= c <= 'z' then (c as int - 'a' as int + 'A' as int) as char
    else c
  }

  function Uppers(s: string): string {
    seq(|s|, i requires 0 <= i < |s| => Upper(s[i]))
  }

  predicate IsName(s: string) {
    0 < |s| < KEY_MAX && forall i :: 0 <= i < |s| ==> KeyChar(s[i])
  }

  function Normalise(s: string): Option<string> {
    if IsName(Uppers(s)) then Some(Uppers(s)) else None
  }

  predicate HasPrefix(s: string) {
    PREFIX <= s
  }

  /** The fully qualified key of `key` inside `section`. */
  function Qualify(section: string, key: string): Option<string> {
    match Normalise(key)
    case None => None
    case Some(k) =>
      if HasPrefix(k) then Some(k)
      else
        match (if section == "" then Some("") else Normalise(section))
        case None => None
        case Some(s) =>
          var q := PREFIX + (if s == "" || s == "CORE" || s == "SOFTPLC" then k else s + "_" + k);
          if |q| < KEY_MAX then Some(q) else None
  }

  lemma NamesStay(s: string)
    requires IsName(s)
    ensures Normalise(s) == Some(s)
  {
    assert Uppers(s) == s;
  }

  /** A qualified key qualifies to itself, in every section. */
  lemma QualifiedStays(section: string, key: string, other: string)
    requires Qualify(section, key).Some?
    ensures var q := Qualify(section, key).value;
            IsName(q) && HasPrefix(q) && Qualify(other, q) == Some(q)
  {
    var q := Qualify(section, key).value;
    assert IsName(q) && HasPrefix(q);
    NamesStay(q);
  }

  // ---------------------------------------------------------------- the text

  /** Lines end at a newline or at the end; a last newline starts no further line. */
  function Lines(text: string): seq<string>
    decreases |text|
  {
    if text == "" then []
    else
      var n := IndexOf(text, '\n');
      [text[..n]] + Lines(text[Min(n + 1, |text|)..])
  }

  datatype State = State(section: string, entries: seq<Entry>)

  predicate HasKey(entries: seq<Entry>, key: string) {
    exists i :: 0 <= i < |entries| && entries[i].key == key
  }

  /** One line; nothing comes back from a line that is rejected. */
  function Step(st: State, line: string): Option<State> {
    if |line| >= LINE_MAX then None
    else
      var s := Trim(StripComment(line));
      if s == "" then Some(st)
      else if s[0] == '[' then SectionStep(st, s)
      else
        var eq := IndexOf(s, '=');
        if eq == |s| then None else EntryStep(st, Trim(s[..eq]), Unquote(Trim(s[eq + 1..])))
  }

  function SectionStep(st: State, s: string): Option<State>
    requires s != "" && s[0] == '['
  {
    var close := IndexOf(s, ']');
    if close == |s| || Trim(s[close + 1..]) != "" then None
    else
      match Normalise(Trim(s[1..close]))
      case None => None
      case Some(name) => Some(st.(section := name))
  }

  function EntryStep(st: State, key: string, value: string): Option<State> {
    match Qualify(st.section, key)
    case None => None
    case Some(q) =>
      if |value| >= VALUE_MAX || HasKey(st.entries, q) || |st.entries| == MAX_ENTRIES then None
      else Some(st.(entries := st.entries + [Entry(q, value)]))
  }

  /** Where the lines end: `ok` unless a line was rejected, with what was stored before it. */
  datatype Outcome = Outcome(ok: bool, entries: seq<Entry>)

  function ParseLines(st: State, lines: seq<string>): Outcome
    decreases |lines|
  {
    if lines == [] then Outcome(true, st.entries)
    else
      match Step(st, lines[0])
      case None => Outcome(false, st.entries)
      case Some(next) => ParseLines(next, lines[1..])
  }

  function ParseText(text: string): Outcome {
    ParseLines(State("", []), Lines(text))
  }

  // ---------------------------------------------------------------- what is stored

  /** A table of settings: distinct keys that qualify to themselves, values that fit. */
  ghost predicate Stored(entries: seq<Entry>) {
    && |entries| <= MAX_ENTRIES
    && (forall i :: 0 <= i < |entries| ==>
                      Qualify("", entries[i].key) == Some(entries[i].key) && IsName(entries[i].key)
                      && HasPrefix(entries[i].key) && |entries[i].value| < VALUE_MAX)
    && (forall i, j :: 0 <= i < j < |entries| ==> entries[i].key != entries[j].key)
  }

  lemma StepStores(st: State, line: string)
    requires Stored(st.entries) && Step(st, line).Some?
    ensures Stored(Step(st, line).value.entries)
  {
    var s := Trim(StripComment(line));
    if s != "" && s[0] != '[' {
      var key := Trim(s[..IndexOf(s, '=')]);
      QualifiedStays(st.section, key, "");
    }
  }

  lemma {:induction false} ParseStores(st: State, lines: seq<string>)
    requires Stored(st.entries)
    ensures Stored(ParseLines(st, lines).entries)
    decreases |lines|
  {
    if lines != [] && Step(st, lines[0]).Some? {
      StepStores(st, lines[0]);
      ParseStores(Step(st, lines[0]).value, lines[1..]);
    }
  }

  /** What a text stores, accepted or not, has distinct keys that qualify to themselves. */
  lemma TextStores(text: string)
    ensures Stored(ParseText(text).entries)
  {
    ParseStores(State("", []), Lines(text));
  }

  // ---------------------------------------------------------------- lookup

  /** An environment variable that is set to something wins over the file; an empty value falls back. */
  function Lookup(entries: seq<Entry>, env: map<string, string>, key: string, fallback: string): string {
    match Qualify("", key)
    case None => fallback
    case Some(q) =>
      if q in env && env[q] != "" then env[q]
      else
        var i := Position(entries, q);
        if i < |entries| && entries[i].value != "" then entries[i].value else fallback
  }

  /** Index of the first entry under `key`, or the length. */
  function Position(entries: seq<Entry>, key: string): (i: nat)
    ensures i <= |entries| && (i < |entries| ==> entries[i].key == key)
    ensures forall j :: 0 <= j < i ==> entries[j].key != key
  {
    if entries == [] || entries[0].key == key then 0 else 1 + Position(entries[1..], key)
  }

  /**
   * Whatever a text stores is found again, under every spelling that qualifies to the stored key,
   * unless the environment overrides it; and nothing else is found.
   */
  lemma StoredIsFound(text: string, env: map<string, string>, spelling: string, fallback: string)
    ensures var entries := ParseText(text).entries;
            var q := Qualify("", spelling);
            var r := Lookup(entries, env, spelling, fallback);
            && (q.None? ==> r == fallback)
            && (q.Some? && q.value in env && env[q.value] != "" ==> r == env[q.value])
            && (q.Some? && (q.value in env ==> env[q.value] == "") ==>
                  (forall i :: 0 <= i < |entries| && entries[i].key == q.value && entries[i].value != "" ==>
                                 r == entries[i].value)
                  && ((forall e :: e in entries && e.key == q.value ==> e.value == "") ==> r == fallback))
  {
    TextStores(text);
  }

  // ---------------------------------------------------------------- printing and reading back

  function Quoted(value: string): string {
    "\"" + value + "\""
  }

  function Line(e: Entry): string {
    e.key + " = " + Quoted(e.value)
  }

  function Print(entries: seq<Entry>): string {
    if entries == [] then "" else Line(entries[0]) + "\n" + Print(entries[1..])
  }

  /** The quote open before position `i` of a value printed inside double quotes. */
  function QuoteOpen(value: string, i: nat): Option<char>
    requires i <= |value|
  {
    if i == 0 then Some('"') else After(value[i - 1], QuoteOpen(value, i - 1))
  }

  /** A comment character behind a space or tab, with no quote open. */
  predicate CommentAt(value: string, i: nat)
    requires 0 < i < |value|
  {
    (value[i] == '#' || value[i] == ';') && (value[i - 1] == ' ' || value[i - 1] == '\t') && QuoteOpen(value, i).None?
  }

  /** No position of the value starts a comment once the value is printed. */
  predicate Survives(value: string) {
    forall i :: 0 < i < |value| ==> !CommentAt(value, i)
  }

  /** What the printed value is read back as. */
  function Reread(value: string): string {
    Unquote(TrimRight(StripComment(Quoted(value))))
  }

  predicate OneLine(value: string) {
    '\n' !in value
  }

  /** Behind a prefix, the scan for a comment does what it does without it. */
  lemma {:induction false} CutBehind(prefix: string, s: string, i: nat, quote: Option<char>)
    requires 0 < i <= |s|
    ensures CutAt(prefix + s, |prefix| + i, quote) == |prefix| + CutAt(s, i, quote)
    decreases |s| - i
  {
    if i < |s| {
      CutBehind(prefix, s, i + 1, After(s[i], quote));
      assert (prefix + s)[|prefix| + i - 1] == s[i - 1];
    }
  }

  /** Over characters that neither open a quote nor start a comment, the scan just moves on. */
  lemma {:induction false} CutPasses(s: string, i: nat, n: nat)
    requires i <= n <= |s|
    requires forall j :: i <= j < n ==> s[j] != '"' && s[j] != '\'' && s[j] != '#' && s[j] != ';'
    ensures CutAt(s, i, None) == CutAt(s, n, None)
    decreases n - i
  {
    if i < n {
      CutPasses(s, i + 1, n);
    }
  }

  lemma {:induction false} QuoteHolds(s: string, i: nat, quote: char)
    requires 0 < i < |s| && s[|s| - 1] == quote
    requires forall j :: i <= j < |s| - 1 ==> s[j] != quote
    ensures CutAt(s, i, Some(quote)) == |s|
    decreases |s| - i
  {
    if i < |s| - 1 {
      QuoteHolds(s, i + 1, quote);
    } else {
      assert CutAt(s, |s|, None) == |s|;
    }
  }

  /** The scan of the quoted value reaches its end exactly if no comment starts from position `i` on. */
  lemma {:induction false} CutInQuotes(value: string, i: nat)
    requires i <= |value|
    ensures CutAt(Quoted(value), i + 1, QuoteOpen(value, i)) == |Quoted(value)| <==>
            forall j :: i <= j < |value| && j > 0 ==> !CommentAt(value, j)
    decreases |value| - i
  {
    var q := Quoted(value);
    if i < |value| {
      CutInQuotes(value, i + 1);
      assert q[i + 1] == value[i] && (i > 0 ==> q[i] == value[i - 1]);
      assert Comment(q, i + 1, QuoteOpen(value, i)) <==> i > 0 && CommentAt(value, i);
    }
  }

  /** A value survives exactly if the comment cutter leaves its printed form alone. */
  lemma SurvivesUncut(value: string)
    ensures Survives(value) <==> StripComment(Quoted(value)) == Quoted(value)
  {
    var q := Quoted(value);
    CutInQuotes(value, 0);
    assert CutAt(q, 0, None) == CutAt(q, 1, Some('"'));
    assert q[..CutAt(q, 0, None)] == q <==> CutAt(q, 0, None) == |q|;
  }

  lemma {:induction false} QuoteStaysOpen(value: string, i: nat)
    requires i <= |value| && '"' !in value
    ensures QuoteOpen(value, i) == Some('"')
  {
    if i > 0 {
      QuoteStaysOpen(value, i - 1);
      assert value[i - 1] in value;
    }
  }

  /** A value without a double quote survives, whatever else is in it. */
  lemma UnquotedSurvives(value: string)
    requires '"' !in value
    ensures Survives(value)
  {
    forall i | 0 < i < |value|
      ensures !CommentAt(value, i)
    {
      QuoteStaysOpen(value, i);
    }
  }

  /** Cut short of its closing quote, a quoted value is read back shorter than it was. */
  lemma CutIsShorter(value: string)
    requires StripComment(Quoted(value)) != Quoted(value)
    ensures |Reread(value)| < |value|
  {
    var q := Quoted(value);
    var c := CutAt(q, 0, None);
    assert q[..|q|] == q;
    assert Comment(q, c, None) && q[|q| - 1] == '"' && q[0] == '"';
    assert 0 < c < |q| - 1 && Blank(q[..c][c - 1]);
    assert TrimRight(q[..c]) == TrimRight(q[..c][..c - 1]);
  }

  lemma UncutIsWhole(value: string)
    requires StripComment(Quoted(value)) == Quoted(value)
    ensures Reread(value) == value
  {
    var q := Quoted(value);
    assert !Blank(q[|q| - 1]) && TrimRight(q) == q;
    assert q[1..|q| - 1] == value;
  }

  /** A value is read back as itself exactly when no comment starts inside its quotes. */
  lemma RereadExactly(value: string)
    ensures Reread(value) == value <==> Survives(value)
    ensures |Reread(value)| <= |value|
  {
    SurvivesUncut(value);
    hide Reread, Survives, StripComment, Quoted;
    if StripComment(Quoted(value)) == Quoted(value) {
      UncutIsWhole(value);
    } else {
      CutIsShorter(value);
    }
  }

  lemma {:induction false} TrimRightBehind(a: string, b: string)
    requires TrimRight(b) != ""
    ensures TrimRight(a + b) == a + TrimRight(b)
    decreases |b|
  {
    var s := a + b;
    assert s[|s| - 1] == b[|b| - 1];
    if Blank(b[|b| - 1]) {
      TrimRightBehind(a, b[..|b| - 1]);
      assert s[..|s| - 1] == a + b[..|b| - 1];
    }
  }

  lemma {:induction false} TrimRightStarts(s: string)
    requires s != "" && !Blank(s[0])
    ensures TrimRight(s) != "" && TrimRight(s)[0] == s[0]
    decreases |s|
  {
    if |s| > 1 && Blank(s[|s| - 1]) {
      TrimRightStarts(s[..|s| - 1]);
    }
  }

  predicate InQuotes(q: string) {
    q != "" && (q[0] == '"' || q[0] == '\'')
  }

  /** A quoted value, cut and trimmed, still starts with its quote and ends in something. */
  lemma QuotedStarts(q: string)
    requires InQuotes(q)
    ensures InQuotes(TrimRight(StripComment(q)))
  {
    assert CutAt(q, 0, None) > 0;
    TrimRightStarts(StripComment(q));
  }

  /** A character that means nothing to the parser. */
  predicate PlainChar(c: char) {
    c != '=' && c != '[' && c != ']' && c != '"' && c != '\'' && c != '#' && c != ';' && c != '\n'
  }

  /** A spelling that reaches the naming rule as it is. */
  predicate Plain(key: string) {
    && key != "" && !Blank(key[0]) && !Blank(key[|key| - 1])
    && forall i :: 0 <= i < |key| ==> PlainChar(key[i])
  }

  lemma NamesArePlain(key: string)
    requires IsName(key)
    ensures Plain(key)
  {}

  lemma LineCuts(key: string, q: string)
    requires Plain(key) && InQuotes(q)
    ensures StripComment(key + " = " + q) == key + " = " + StripComment(q)
  {
    var head := key + " = ";
    var line := head + q;
    assert forall j :: 0 <= j < |head| ==> line[j] != '"' && line[j] != '\'' && line[j] != '#' && line[j] != ';' by {
      forall j | 0 <= j < |head|
        ensures line[j] != '"' && line[j] != '\'' && line[j] != '#' && line[j] != ';'
      {
        assert line[j] == if j < |key| then key[j] else " = "[j - |key|];
      }
    }
    hide Plain;
    assert CutAt(line, 0, None) == CutAt(line, |head|, None) by {
      CutPasses(line, 0, |head|);
    }
    CutBehind(head, q, 1, Some(q[0]));
    assert line[|head|] == q[0];
  }

  /** A line with a quoted value, cut and trimmed, is the key and what is left of the quoted value. */
  lemma LineTrims(key: string, q: string)
    requires Plain(key) && InQuotes(q)
    ensures Trim(StripComment(key + " = " + q)) == key + " = " + TrimRight(StripComment(q))
  {
    hide StripComment;
    LineCuts(key, q);
    QuotedStarts(q);
    var rest := StripComment(q);
    TrimRightBehind(key + " = ", rest);
    assert (key + " = " + rest)[0] == key[0];
  }

  lemma PrefixedStays(section: string, key: string)
    requires IsName(key) && HasPrefix(key)
    ensures Qualify(section, key) == Some(key)
  {
    NamesStay(key);
  }

  lemma StepSplits(st: State, line: string, key: string, r: string)
    requires |line| < LINE_MAX && Trim(StripComment(line)) == key + " = " + r
    requires Plain(key) && InQuotes(r) && !Blank(r[|r| - 1])
    ensures Step(st, line) == EntryStep(st, key, Unquote(r))
  {
    hide Trim, StripComment, Plain, Unquote, EntryStep;
    KeyPart(key, r);
  }

  /** A line with a quoted value stores what is left of the value under the qualified key. */
  lemma QuotedStoresAs(st: State, key: string, full: string, q: string)
    requires Plain(key) && |key| < KEY_MAX && Qualify(st.section, key) == Some(full)
    requires InQuotes(q) && |q| <= VALUE_MAX + 1
    requires var v := Unquote(TrimRight(StripComment(q))); |v| < VALUE_MAX
    requires !HasKey(st.entries, full) && |st.entries| < MAX_ENTRIES
    ensures Step(st, key + " = " + q)
         == Some(st.(entries := st.entries + [Entry(full, Unquote(TrimRight(StripComment(q))))]))
  {
    assert |key + " = " + q| < LINE_MAX;
    hide Trim, TrimRight, StripComment, Step, Unquote, HasKey, Qualify, Plain;
    LineTrims(key, q);
    QuotedStarts(q);
    StepSplits(st, key + " = " + q, key, TrimRight(StripComment(q)));
  }

  lemma QuotedStores(st: State, key: string, q: string)
    requires IsName(key) && HasPrefix(key) && InQuotes(q) && |q| <= VALUE_MAX + 1
    requires var v := Unquote(TrimRight(StripComment(q))); |v| < VALUE_MAX
    requires !HasKey(st.entries, key) && |st.entries| < MAX_ENTRIES
    ensures Step(st, key + " = " + q)
         == Some(st.(entries := st.entries + [Entry(key, Unquote(TrimRight(StripComment(q))))]))
  {
    PrefixedStays(st.section, key);
    NamesArePlain(key);
    hide TrimRight, StripComment, Step, Unquote, HasKey, Qualify, Plain, IsName, HasPrefix;
    QuotedStoresAs(st, key, key, q);
  }

  /** A printed line stores its key with what its value is read back as. */
  lemma LineStores(st: State, e: Entry)
    requires IsName(e.key) && HasPrefix(e.key) && |e.value| < VALUE_MAX
    requires !HasKey(st.entries, e.key) && |st.entries| < MAX_ENTRIES
    ensures Step(st, Line(e)) == Some(st.(entries := st.entries + [Entry(e.key, Reread(e.value))]))
  {
    RereadExactly(e.value);
    hide Step, HasKey, IsName, HasPrefix, StripComment, TrimRight, Unquote;
    QuotedStores(st, e.key, Quoted(e.value));
  }

  /** A value without a single quote is stored as it is by a line that puts it in single quotes. */
  lemma SingleQuotedStores(st: State, e: Entry)
    requires IsName(e.key) && HasPrefix(e.key) && |e.value| < VALUE_MAX && '\'' !in e.value
    requires !HasKey(st.entries, e.key) && |st.entries| < MAX_ENTRIES
    ensures Step(st, e.key + " = " + ("'" + e.value + "'")) == Some(st.(entries := st.entries + [e]))
  {
    var q := "'" + e.value + "'";
    QuoteHolds(q, 1, '\'');
    assert CutAt(q, 0, None) == CutAt(q, 1, Some('\'')) == |q|;
    assert StripComment(q) == q && TrimRight(q) == q && Unquote(q) == e.value;
    hide Step, HasKey, IsName, HasPrefix, StripComment, TrimRight, Unquote;
    QuotedStores(st, e.key, q);
  }

  /** Splitting the line at its equals sign gives back the key and the quoted part. */
  lemma KeyPart(key: string, r: string)
    requires Plain(key) && InQuotes(r) && !Blank(r[|r| - 1])
    ensures var s := key + " = " + r;
            && s[0] != '[' && IndexOf(s, '=') == |key| + 1
            && Trim(s[..|key| + 1]) == key && Trim(s[|key| + 2..]) == r
  {
    var s := key + " = " + r;
    assert s[|key| + 1] == '=' && s[|key|] == ' ' && s[0] == key[0];
    assert forall j :: 0 <= j < |key| ==> s[j] == key[j] != '=';
    assert s[..|key| + 1] == key + " " && s[|key| + 2..] == " " + r;
    hide Trim;
    KeyTrims(key);
    ValueTrims(r);
  }

  lemma KeyTrims(key: string)
    requires Plain(key)
    ensures Trim(key + " ") == key
  {
    assert (key + " ")[0] == key[0];
    assert TrimLeft(key + " ") == key + " ";
    assert (key + " ")[..|key + " "| - 1] == key;
    assert TrimRight(key + " ") == TrimRight(key) == key;
  }

  lemma ValueTrims(r: string)
    requires InQuotes(r) && !Blank(r[|r| - 1])
    ensures Trim(" " + r) == r
  {
    assert (" " + r)[1..] == r;
    assert TrimLeft(" " + r) == TrimLeft(r) == r;
  }

  function PrintedLines(entries: seq<Entry>): seq<string> {
    if entries == [] then [] else [Line(entries[0])] + PrintedLines(entries[1..])
  }

  function RereadAll(entries: seq<Entry>): seq<Entry> {
    if entries == [] then [] else [Entry(entries[0].key, Reread(entries[0].value))] + RereadAll(entries[1..])
  }

  lemma {:induction false} RereadAllAt(entries: seq<Entry>)
    ensures |RereadAll(entries)| == |entries|
    ensures forall i :: 0 <= i < |entries| ==>
                          RereadAll(entries)[i] == Entry(entries[i].key, Reread(entries[i].value))
  {
    if entries != [] {
      RereadAllAt(entries[1..]);
    }
  }

  lemma Regroup<T>(a: seq<T>, b: seq<T>, c: seq<T>)
    ensures a + b + c == a + (b + c)
  {}

  lemma RereadUnfolds(entries: seq<Entry>)
    requires entries != []
    ensures RereadAll(entries) == [Entry(entries[0].key, Reread(entries[0].value))] + RereadAll(entries[1..])
  {}

  lemma RereadFirst(acc: seq<Entry>, entries: seq<Entry>)
    requires entries != []
    ensures acc + [Entry(entries[0].key, Reread(entries[0].value))] + RereadAll(entries[1..])
         == acc + RereadAll(entries)
  {
    hide Reread, RereadAll;
    RereadUnfolds(entries);
    Regroup(acc, [Entry(entries[0].key, Reread(entries[0].value))], RereadAll(entries[1..]));
  }

  ghost predicate OneLiners(entries: seq<Entry>) {
    forall i :: 0 <= i < |entries| ==> OneLine(entries[i].key) && OneLine(entries[i].value)
  }

  lemma FirstLine(line: string, rest: string)
    requires OneLine(line)
    ensures Lines(line + "\n" + rest) == [line] + Lines(rest)
  {
    var text := line + "\n" + rest;
    assert text[|line|] == '\n';
    assert forall j :: 0 <= j < |line| ==> text[j] == line[j];
    assert IndexOf(text, '\n') == |line|;
    assert text[..|line|] == line && text[|line| + 1..] == rest;
  }

  lemma {:induction false} PrintedSplits(entries: seq<Entry>)
    requires OneLiners(entries)
    ensures Lines(Print(entries)) == PrintedLines(entries)
  {
    if entries != [] {
      PrintedSplits(entries[1..]);
      FirstLine(Line(entries[0]), Print(entries[1..]));
    }
  }

  /** Reading one value back keeps the table a table. */
  lemma StoredKept(acc: seq<Entry>, entries: seq<Entry>)
    requires Stored(acc + entries) && entries != []
    ensures Stored(acc + [Entry(entries[0].key, Reread(entries[0].value))] + entries[1..])
    ensures !HasKey(acc, entries[0].key) && |acc| < MAX_ENTRIES
    ensures IsName(entries[0].key) && HasPrefix(entries[0].key) && |entries[0].value| < VALUE_MAX
  {
    hide Reread, Qualify, IsName, HasPrefix, Survives;
    var all := acc + entries;
    var e := Entry(entries[0].key, Reread(entries[0].value));
    assert all[|acc|] == entries[0];
    RereadExactly(entries[0].value);
    assert acc + [e] + entries[1..] == all[|acc| := e];
    forall i | 0 <= i < |acc|
      ensures acc[i].key != entries[0].key
    {
      assert all[i] == acc[i];
    }
  }

  lemma ParseFirst(st: State, line: string, next: State, lines: seq<string>)
    requires Step(st, line) == Some(next)
    ensures ParseLines(st, [line] + lines) == ParseLines(next, lines)
  {}

  lemma {:induction false} PrintedParses(acc: seq<Entry>, entries: seq<Entry>)
    requires Stored(acc + entries)
    ensures ParseLines(State("", acc), PrintedLines(entries)) == Outcome(true, acc + RereadAll(entries))
    decreases |entries|
  {
    if entries == [] {
      assert acc + RereadAll(entries) == acc;
    } else {
      hide Stored, Step, ParseLines, Reread, RereadAll, Line, HasKey, IsName, HasPrefix;
      var e, rest := entries[0], entries[1..];
      var next := acc + [Entry(e.key, Reread(e.value))];
      StoredKept(acc, entries);
      LineStores(State("", acc), e);
      ParseFirst(State("", acc), Line(e), State("", next), PrintedLines(rest));
      PrintedParses(next, rest);
      RereadFirst(acc, entries);
    }
  }

  lemma RereadAllExactly(entries: seq<Entry>)
    ensures RereadAll(entries) == entries <==> forall i :: 0 <= i < |entries| ==> Survives(entries[i].value)
  {
    RereadAllAt(entries);
    forall i | 0 <= i < |entries|
      ensures RereadAll(entries)[i] == entries[i] <==> Survives(entries[i].value)
    {
      RereadExactly(entries[i].value);
    }
  }

  /**
   * Printing a stored table and parsing it gives a table with the same keys in the same order, and the
   * same values exactly when no comment starts inside a quoted value.
   */
  lemma PrintedReadsBack(entries: seq<Entry>)
    requires Stored(entries) && OneLiners(entries)
    ensures ParseText(Print(entries)) == Outcome(true, RereadAll(entries))
    ensures ParseText(Print(entries)) == Outcome(true, entries) <==>
              forall i :: 0 <= i < |entries| ==> Survives(entries[i].value)
  {
    hide Survives, Reread, Stored, OneLiners, RereadAll, ParseLines, Print, Lines, PrintedLines;
    PrintedSplits(entries);
    assert [] + entries == entries;
    PrintedParses([], entries);
    assert [] + RereadAll(entries) == RereadAll(entries);
    RereadAllExactly(entries);
  }

  // ---------------------------------------------------------------- what a text stores is on one line

  lemma {:induction false} TrimRightWithin(s: string)
    ensures OneLine(s) ==> OneLine(TrimRight(s))
  {}

  lemma {:induction false} TrimWithin(s: string)
    ensures OneLine(s) ==> OneLine(Trim(s))
    decreases |s|
  {
    TrimRightWithin(s);
    if s != "" && Blank(s[0]) {
      TrimWithin(s[1..]);
    }
  }

  lemma StepOneLine(st: State, line: string)
    requires OneLine(line) && OneLiners(st.entries) && Step(st, line).Some?
    ensures OneLiners(Step(st, line).value.entries)
  {
    var cut := StripComment(line);
    assert OneLine(cut);
    TrimWithin(cut);
    hide Trim, StripComment, Unquote, Qualify, Normalise, OneLine;
    var s := Trim(cut);
    if s != "" && s[0] != '[' {
      var eq := IndexOf(s, '=');
      ValueWithin(s, eq + 1);
      KeyOnOneLine(st.section, Trim(s[..eq]));
    }
  }

  lemma ValueWithin(s: string, i: nat)
    requires i <= |s| && OneLine(s)
    ensures OneLine(Unquote(Trim(s[i..])))
  {
    TrimWithin(s[i..]);
  }

  lemma KeyOnOneLine(section: string, key: string)
    requires Qualify(section, key).Some?
    ensures OneLine(Qualify(section, key).value)
  {
    QualifiedStays(section, key, "");
  }

  lemma {:induction false} ParseOneLine(st: State, lines: seq<string>)
    requires OneLiners(st.entries) && forall i :: 0 <= i < |lines| ==> OneLine(lines[i])
    ensures OneLiners(ParseLines(st, lines).entries)
    decreases |lines|
  {
    if lines != [] && Step(st, lines[0]).Some? {
      StepOneLine(st, lines[0]);
      ParseOneLine(Step(st, lines[0]).value, lines[1..]);
    }
  }

  lemma {:induction false} LinesAreLines(text: string)
    ensures forall i :: 0 <= i < |Lines(text)| ==> OneLine(Lines(text)[i])
    decreases |text|
  {
    if text != "" {
      var n := IndexOf(text, '\n');
      LinesAreLines(text[Min(n + 1, |text|)..]);
    }
  }

  /** The table stored by any text survives printing and parsing exactly when its values do. */
  lemma TextReadsBack(text: string)
    ensures var entries := ParseText(text).entries;
            && (ParseText(Print(entries)) == Outcome(true, entries) <==>
                  forall i :: 0 <= i < |entries| ==> Survives(entries[i].value))
            && ((forall i :: 0 <= i < |entries| ==> '"' !in entries[i].value) ==>
                  ParseText(Print(entries)) == Outcome(true, entries))
  {
    var entries := ParseText(text).entries;
    TextStores(text);
    LinesAreLines(text);
    ParseOneLine(State("", []), Lines(text));
    PrintedReadsBack(entries);
    hide Survives, ParseText, Print;
    forall i | 0 <= i < |entries| && '"' !in entries[i].value
      ensures Survives(entries[i].value)
    {
      UnquotedSurvives(entries[i].value);
    }
  }

  /** Any value that fits on a line and holds no single quote is what some text stores. */
  lemma SingleQuotedText(e: Entry)
    requires IsName(e.key) && HasPrefix(e.key) && |e.value| < VALUE_MAX && '\'' !in e.value && OneLine(e.value)
    ensures ParseText(e.key + " = " + ("'" + e.value + "'")) == Outcome(true, [e])
  {
    var line := e.key + " = " + ("'" + e.value + "'");
    assert OneLine(line) by {
      assert OneLine(e.key);
    }
    SingleQuotedStores(State("", []), e);
    hide Step, IsName, HasPrefix, Lines, OneLine;
    LastLine(line);
    assert [] + [e] == [e];
    ParseFirst(State("", []), line, State("", [e]), []);
    assert [line] + [] == [line];
  }

  lemma LastLine(line: string)
    requires OneLine(line) && line != ""
    ensures Lines(line) == [line]
  {
    var n := IndexOf(line, '\n');
    assert n == |line| && line[..n] == line && line[Min(n + 1, |line|)..] == "";
  }

  /** A value with a double quote and, behind it, what looks like a comment. */
  const TROUBLE := "a\" #b"

  /** A double quote in a value can end the printed quotes early, and a comment then eats the rest. */
  lemma QuoteLosesTail()
    ensures !Survives(TROUBLE)
    ensures var entries := [Entry("SOFTPLC_X", TROUBLE)];
            && ParseText("SOFTPLC_X = " + ("'" + TROUBLE + "'")) == Outcome(true, entries)
            && ParseText(Print(entries)) != Outcome(true, entries)
  {
    assert QuoteOpen(TROUBLE, 3) == QuoteOpen(TROUBLE, 2) == None by {
      assert QuoteOpen(TROUBLE, 1) == Some('"');
    }
    assert CommentAt(TROUBLE, 3);
    var e := Entry("SOFTPLC_X", TROUBLE);
    assert IsName(e.key) && HasPrefix(e.key);
    SingleQuotedText(e);
    var text := "SOFTPLC_X = " + ("'" + TROUBLE + "'");
    assert e.key + " = " == "SOFTPLC_X = ";
    hide Survives, ParseText, Print, IsName, HasPrefix;
    TextReadsBack(text);
  }

  // ---------------------------------------------------------------- the naming rule

  /** `c` is a way to write the character `n` of a name. */
  predicate SpellsChar(c: char, n: char) {
    c == n || ('a' <= c <= 'z' && n as int == c as int - 32) || (n == '_' && (c == '-' || c == '.' || c == ' '))
  }

  /** A way to write a name: in upper or lower case, with '-', '.' or a space for '_'. */
  predicate Names(s: string, name: string) {
    IsName(name) && |s| == |name| && forall i :: 0 <= i < |s| ==> SpellsChar(s[i], name[i])
  }

  /** The environment-variable spelling is the name a text is a way to write, and there is at most one. */
  lemma NormaliseExactly(s: string, name: string)
    ensures Normalise(s) == Some(name) <==> Names(s, name)
  {
    forall i | 0 <= i < |s| && i < |name|
      ensures Upper(s[i]) == name[i] && KeyChar(name[i]) <==> SpellsChar(s[i], name[i]) && KeyChar(name[i])
    {}
    if Names(s, name) {
      assert Uppers(s) == name;
    }
  }

  /** Where a key named `key` belongs in the section named `section`. */
  function FullKey(section: string, key: string): string {
    if "SOFTPLC_" <= key then key
    else if section == "" || section == "CORE" || section == "SOFTPLC" then "SOFTPLC_" + key
    else "SOFTPLC_" + section + "_" + key
  }

  predicate NamesSection(section: string, name: string) {
    if section == "" then name == "" else Names(section, name)
  }

  /** `r` is where `key` belongs in `section`, or nothing if a name is missing or the place too long. */
  ghost predicate Placed(section: string, key: string, r: Option<string>) {
    && ((forall k :: !Names(key, k)) ==> r.None?)
    && (forall k :: Names(key, k) && "SOFTPLC_" <= k ==> r == Some(k))
    && (forall k, s :: Names(key, k) && NamesSection(section, s) && !("SOFTPLC_" <= k) ==>
                         r == if |FullKey(s, k)| < 64 then Some(FullKey(s, k)) else None)
    && ((forall s :: !NamesSection(section, s)) ==> forall k :: Names(key, k) && !("SOFTPLC_" <= k) ==> r.None?)
  }

  lemma QualifyPlaces(section: string, key: string)
    ensures Placed(section, key, Qualify(section, key))
  {
    forall k
      ensures Normalise(key) == Some(k) <==> Names(key, k)
    {
      NormaliseExactly(key, k);
    }
    forall s
      ensures section != "" ==> (Normalise(section) == Some(s) <==> NamesSection(section, s))
    {
      NormaliseExactly(section, s);
    }
    hide Normalise, Names;
    if Normalise(key).Some? {
      var k := Normalise(key).value;
      assert Names(key, k);
      if section == "" {
        assert NamesSection(section, "");
      } else if Normalise(section).Some? {
        var s := Normalise(section).value;
        assert NamesSection(section, s);
        assert PREFIX + (s + "_" + k) == "SOFTPLC_" + s + "_" + k;
      }
    }
  }

  // ---------------------------------------------------------------- the code

  method TrimScan(s: string) returns (r: string)
    ensures r == Trim(s)
  {
    hide TrimLeft, TrimRight;
    var i := 0;
    while i < |s| && Blank(s[i])
      invariant 0 <= i <= |s| && TrimLeft(s) == TrimLeft(s[i..])
    {
      TrimLeftStep(s, i);
      i := i + 1;
    }
    TrimLeftStep(s, i);
    var end := |s|;
    assert s[i..end] == s[i..];
    while end > i && Blank(s[end - 1])
      invariant i <= end <= |s| && TrimRight(s[i..]) == TrimRight(s[i..end])
    {
      TrimRightStep(s, i, end);
      end := end - 1;
    }
    TrimRightStep(s, i, end);
    r := s[i..end];
  }

  lemma TrimLeftStep(s: string, i: nat)
    requires i <= |s|
    ensures TrimLeft(s[i..]) == if i < |s| && Blank(s[i]) then TrimLeft(s[i + 1..]) else s[i..]
  {
    assert i < |s| ==> s[i..][1..] == s[i + 1..];
  }

  lemma TrimRightStep(s: string, i: nat, end: nat)
    requires i <= end <= |s|
    ensures TrimRight(s[i..end]) == if end > i && Blank(s[end - 1]) then TrimRight(s[i..end - 1]) else s[i..end]
  {
    assert end > i ==> s[i..end][..end - i - 1] == s[i..end - 1];
  }

  method StripScan(line: string) returns (r: string)
    ensures r == StripComment(line)
  {
    var quote: Option<char> := None;
    for i := 0 to |line|
      invariant CutAt(line, 0, None) == CutAt(line, i, quote)
    {
      var c := line[i];
      if quote.Some? {
        if c == quote.value {
          quote := None;
        }
      } else if c == '"' || c == '\'' {
        quote := Some(c);
      } else if (c == '#' || c == ';') && (i == 0 || line[i - 1] == ' ' || line[i - 1] == '\t') {
        return line[..i];
      }
    }
    r := line;
  }

  method NormaliseScan(s: string) returns (r: Option<string>)
    ensures r == Normalise(s)
    ensures forall name :: r == Some(name) <==> Names(s, name)
  {
    forall name
      ensures Normalise(s) == Some(name) <==> Names(s, name)
    {
      NormaliseExactly(s, name);
    }
    hide Names;
    var out := "";
    for i := 0 to |s|
      invariant |out| == i < KEY_MAX
      invariant forall j :: 0 <= j < i ==> out[j] == Upper(s[j]) && KeyChar(out[j])
    {
      var c := Upper(s[i]);
      if !KeyChar(c) {
        assert Uppers(s)[i] == c;
        return None;
      }
      if i + 1 >= KEY_MAX {
        return None;
      }
      out := out + [c];
    }
    assert out == Uppers(s);
    r := if out == "" then None else Some(out);
  }

  method QualifyKey(section: string, key: string) returns (r: Option<string>)
    ensures r == Qualify(section, key)
    ensures Placed(section, key, r)
  {
    QualifyPlaces(section, key);
    hide Placed;
    var k := NormaliseScan(key);
    if k.None? {
      return None;
    }
    if HasPrefix(k.value) {
      return k;
    }
    var s := "";
    if section != "" {
      var n := NormaliseScan(section);
      if n.None? {
        return None;
      }
      s := if n.value == "CORE" || n.value == "SOFTPLC" then "" else n.value;
    }
    var q := if s == "" then PREFIX + k.value else PREFIX + s + "_" + k.value;
    assert s != "" ==> q == PREFIX + (s + "_" + k.value);
    r := if |q| < KEY_MAX then Some(q) else None;
  }

  /** The settings loaded from the file. */
  class Store {
    var entries: seq<Entry>

    constructor ()
      ensures entries == []
    {
      entries := [];
    }

    method Find(key: string) returns (i: nat)
      ensures i == Position(entries, key)
    {
      i := 0;
      while i < |entries|
        invariant i <= |entries| && Position(entries, key) == i + Position(entries[i..], key)
      {
        if entries[i].key == key {
          return;
        }
        assert entries[i..][1..] == entries[i + 1..];
        i := i + 1;
      }
    }

    /** The settings of `text` replace what was there; a rejected text leaves what came before the bad line. */
    method Parse(text: string) returns (ok: bool)
      modifies this
      ensures Outcome(ok, entries) == ParseText(text)
    {
      entries := [];
      var section, p := "", 0;
      while p < |text|
        invariant 0 <= p <= |text|
        invariant ParseText(text) == ParseLines(State(section, entries), Lines(text[p..]))
        decreases |text| - p
      {
        var n := IndexOf(text[p..], '\n');
        var line := text[p..][..n];
        ghost var rest := text[p..][Min(n + 1, |text| - p)..];
        ghost var st := State(section, entries);
        assert Lines(text[p..]) == [line] + Lines(rest);
        p := p + Min(n + 1, |text| - p);
        assert text[p..] == rest;
        var next := ParseLine(section, line);
        if next.None? {
          return false;
        }
        section := next.value;
        ParseFirst(st, line, State(section, entries), Lines(rest));
      }
      ok := true;
    }

    /** One line; the section it leaves, unless it is rejected. */
    method ParseLine(section: string, line: string) returns (next: Option<string>)
      modifies this
      ensures var was := State(section, old(entries));
              if next.None? then Step(was, line).None? && entries == old(entries)
              else Step(was, line) == Some(State(next.value, entries))
    {
      if |line| >= LINE_MAX {
        return None;
      }
      var cut := StripScan(line);
      var s := TrimScan(cut);
      if s == "" {
        return Some(section);
      }
      if s[0] == '[' {
        var close := IndexOf(s, ']');
        if close == |s| {
          return None;
        }
        var tail := TrimScan(s[close + 1..]);
        if tail != "" {
          return None;
        }
        var name := TrimScan(s[1..close]);
        next := NormaliseScan(name);
        return;
      }
      var eq := IndexOf(s, '=');
      if eq == |s| {
        return None;
      }
      var key := TrimScan(s[..eq]);
      var val := TrimScan(s[eq + 1..]);
      var q := QualifyKey(section, key);
      if q.None? || |Unquote(val)| >= VALUE_MAX {
        return None;
      }
      var i := Find(q.value);
      if i < |entries| || |entries| == MAX_ENTRIES {
        return None;
      }
      entries := entries + [Entry(q.value, Unquote(val))];
      next := Some(section);
    }

    method Value(env: map<string, string>, key: string, fallback: string) returns (v: string)
      ensures v == Lookup(entries, env, key, fallback)
    {
      var q := QualifyKey("", key);
      if q.None? {
        return fallback;
      }
      if q.value in env && env[q.value] != "" {
        return env[q.value];
      }
      var i := Find(q.value);
      v := if i < |entries| && entries[i].value != "" then entries[i].value else fallback;
    }
  }
}

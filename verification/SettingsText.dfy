/** What each kind of line of a settings text does, however it is spaced, quoted and commented. */
module SettingsText {
  import opened Statuses
  import opened Settings

  // ---------------------------------------------------------------- forms of lines

  predicate Blanks(s: string) {
    forall i :: 0 <= i < |s| ==> s[i] == ' ' || s[i] == '\t' || s[i] == '\r'
  }

  /** Nothing, or a comment that starts at the beginning of a line or behind a space or tab. */
  predicate Remark(before: string, t: string) {
    || t == ""
    || ((t[0] == '#' || t[0] == ';')
        && (before == "" || before[|before| - 1] == ' ' || before[|before| - 1] == '\t'))
  }

  predicate PassesAt(s: string, i: nat)
    requires i < |s|
  {
    && s[i] != '"' && s[i] != '\''
    && (s[i] == '#' || s[i] == ';' ==> i > 0 && s[i - 1] != ' ' && s[i - 1] != '\t')
  }

  /** No quotes, and a comment character only behind something else than a space or tab. */
  predicate Passes(s: string) {
    forall i :: 0 <= i < |s| ==> PassesAt(s, i)
  }

  predicate Bare(s: string) {
    Passes(s) && (s != "" ==> !Blank(s[0]) && !Blank(s[|s| - 1]))
  }

  /** `w` writes `value`: in double quotes, in single quotes or as it is. */
  predicate Writes(w: string, value: string) {
    || (w == "\"" + value + "\"" && '"' !in value)
    || (w == "'" + value + "'" && '\'' !in value)
    || (w == value && Bare(value))
  }

  ghost predicate EntryForm(line: string, key: string, value: string, a: string, b: string, c: string, w: string,
                            d: string, t: string)
  {
    && line == Head(key, a, b, c) + w + d + t
    && Blanks(a) && Blanks(b) && Blanks(c) && Blanks(d) && Writes(w, value)
    && Remark(Head(key, a, b, c) + w + d, t)
  }

  function Head(key: string, a: string, b: string, c: string): string {
    a + key + b + "=" + c
  }

  /** A line that gives `key` the value `value`. */
  ghost predicate EntryLine(line: string, key: string, value: string) {
    exists a, b, c, w, d, t :: EntryForm(line, key, value, a, b, c, w, d, t)
  }

  ghost predicate HeaderForm(line: string, section: string, a: string, b: string, c: string, d: string, t: string) {
    && line == Bracketed(section, a, b, c) + d + t
    && Blanks(a) && Blanks(b) && Blanks(c) && Blanks(d)
    && Remark(Bracketed(section, a, b, c) + d, t)
  }

  function Bracketed(section: string, a: string, b: string, c: string): string {
    a + "[" + b + section + c + "]"
  }

  /** A line that opens the section `section`. */
  ghost predicate HeaderLine(line: string, section: string) {
    exists a, b, c, d, t :: HeaderForm(line, section, a, b, c, d, t)
  }

  /** A line with nothing but space and a comment. */
  ghost predicate EmptyLine(line: string) {
    exists a, t :: EmptyForm(line, a, t)
  }

  ghost predicate EmptyForm(line: string, a: string, t: string) {
    line == a + t && Blanks(a) && Remark(a, t)
  }

  /** A line with something on it that is neither a closed header nor has an equals sign. */
  ghost predicate StrayLine(line: string) {
    exists a, s, d, t :: StrayForm(line, a, s, d, t)
  }

  ghost predicate StrayForm(line: string, a: string, s: string, d: string, t: string) {
    && line == a + s + d + t && Blanks(a) && Blanks(d) && Remark(a + s + d, t)
    && s != "" && Bare(s) && (if s[0] == '[' then ']' !in s else '=' !in s)
  }

  // ---------------------------------------------------------------- trimming and cutting

  lemma {:induction false} TrimLeftWraps(a: string, s: string)
    requires Blanks(a) && (s != "" ==> !Blank(s[0]))
    ensures TrimLeft(a + s) == s
    decreases |a|
  {
    if a == "" {
      assert a + s == s;
    } else {
      assert (a + s)[1..] == a[1..] + s;
      TrimLeftWraps(a[1..], s);
    }
  }

  lemma {:induction false} TrimRightWraps(s: string, d: string)
    requires Blanks(d) && (s != "" ==> !Blank(s[|s| - 1]))
    ensures TrimRight(s + d) == s
    decreases |d|
  {
    if d == "" {
      assert s + d == s;
    } else {
      var n := |d| - 1;
      assert (s + d)[..|s + d| - 1] == s + d[..n] && (s + d)[|s + d| - 1] == d[n];
      TrimRightWraps(s, d[..n]);
    }
  }

  /** Trimming takes away the space at both ends and nothing else. */
  lemma TrimWraps(a: string, s: string, d: string)
    requires Blanks(a) && Blanks(d) && (s != "" ==> !Blank(s[0]) && !Blank(s[|s| - 1]))
    ensures Trim(a + s + d) == s
  {
    hide TrimLeft, TrimRight;
    if s == "" {
      assert a + s + d == (a + d) + "";
      TrimLeftWraps(a + d, "");
      TrimRightWraps("", "");
      assert "" + "" == "";
    } else {
      assert a + s + d == a + (s + d);
      TrimLeftWraps(a, s + d);
      TrimRightWraps(s, d);
    }
  }

  lemma {:induction false} CutSkips(line: string, i: nat, n: nat)
    requires i <= n <= |line| && Passes(line[i..n])
    ensures CutAt(line, i, None) == CutAt(line, n, None)
    decreases n - i
  {
    if i < n {
      var s, k := line[i..n], n - i - 1;
      assert PassesAt(s, k) && s[k] == line[n - 1] && (k > 0 ==> s[k - 1] == line[n - 2]);
      var p := line[i..n - 1];
      forall j | 0 <= j < k
        ensures PassesAt(p, j)
      {
        assert PassesAt(s, j);
      }
      CutSkips(line, i, n - 1);
    }
  }

  lemma {:induction false} QuoteSkips(line: string, i: nat, n: nat, quote: char)
    requires 0 < i <= n < |line| && line[n] == quote && quote !in line[i..n]
    ensures CutAt(line, i, Some(quote)) == CutAt(line, n + 1, None)
    decreases n - i
  {
    if i < n {
      assert line[i..n][0] == line[i] && line[i..n][1..] == line[i + 1..n];
      QuoteSkips(line, i + 1, n, quote);
    }
  }

  lemma PassesBoth(x: string, y: string)
    requires Passes(x) && Passes(y)
    ensures Passes(x + y)
  {
    forall i | 0 <= i < |x + y|
      ensures PassesAt(x + y, i)
    {
      assert if i < |x| then PassesAt(x, i) else PassesAt(y, i - |x|);
    }
  }

  lemma BlanksPass(s: string)
    requires Blanks(s)
    ensures Passes(s)
  {}

  /** A written value is passed over by the comment cutter. */
  lemma WrittenSkips(line: string, i: nat, w: string, value: string)
    requires Writes(w, value) && 0 < i <= i + |w| <= |line| && line[i..i + |w|] == w
    ensures CutAt(line, i, None) == CutAt(line, i + |w|, None)
  {
    if w == value && Bare(value) {
      CutSkips(line, i, i + |w|);
    } else {
      var n := i + |w| - 1;
      assert w[0] == line[i] && w[|w| - 1] == line[n];
      assert line[i + 1..n] == line[i..n + 1][1..|w| - 1];
      assert w[1..|w| - 1] == value;
      QuoteSkips(line, i + 1, n, w[0]);
    }
  }

  /** A remark is cut off. */
  lemma RemarkCut(line: string, before: string, t: string)
    requires line == before + t && Remark(before, t) && CutAt(line, 0, None) == CutAt(line, |before|, None)
    ensures StripComment(line) == before
  {
    assert t != "" ==> line[|before|] == t[0];
    assert before != "" ==> line[|before| - 1] == before[|before| - 1];
    assert CutAt(line, |before|, None) == |before|;
  }

  lemma PassedCut(line: string, s: string, t: string)
    requires line == s + t && Passes(s) && Remark(s, t)
    ensures StripComment(line) == s
  {
    assert line[0..|s|] == s;
    CutSkips(line, 0, |s|);
    RemarkCut(line, s, t);
  }

  // ---------------------------------------------------------------- entries

  lemma EntryHeadPasses(key: string, a: string, b: string, c: string)
    requires Plain(key) && Blanks(a) && Blanks(b) && Blanks(c)
    ensures Passes(Head(key, a, b, c))
  {
    assert Passes(key) && Passes("=") by {
      assert forall i :: 0 <= i < |key| ==> PassesAt(key, i);
    }
    hide Passes, Blanks, Plain;
    BlanksPass(a);
    BlanksPass(b);
    BlanksPass(c);
    PassesBoth(a, key);
    PassesBoth(a + key, b);
    PassesBoth(a + key + b, "=");
    PassesBoth(a + key + b + "=", c);
  }

  lemma Pieces(line: string, head: string, w: string, d: string, t: string)
    requires line == head + w + d + t
    ensures |head| + |w| + |d| <= |line|
    ensures line[0..|head|] == head && line[|head|..|head| + |w|] == w
    ensures line[|head| + |w|..|head| + |w| + |d|] == d
  {}

  lemma FormParts(line: string, key: string, value: string, a: string, b: string, c: string, w: string, d: string,
                  t: string)
    requires EntryForm(line, key, value, a, b, c, w, d, t) && Plain(key)
    ensures Blanks(a) && Blanks(b) && Blanks(c)
    ensures var head := Head(key, a, b, c);
            && head != "" && line == head + w + d + t && Passes(head) && Writes(w, value) && Blanks(d)
            && Remark(head + w + d, t)
  {
    EntryHeadPasses(key, a, b, c);
  }

  lemma EntryCuts(line: string, key: string, value: string, a: string, b: string, c: string, w: string, d: string,
                  t: string)
    requires EntryForm(line, key, value, a, b, c, w, d, t) && Plain(key)
    ensures StripComment(line) == Head(key, a, b, c) + w + d
  {
    hide *;
    FormParts(line, key, value, a, b, c, w, d, t);
    var head := Head(key, a, b, c);
    Pieces(line, head, w, d, t);
    CutSkips(line, 0, |head|);
    WrittenSkips(line, |head|, w, value);
    BlanksPass(d);
    CutSkips(line, |head| + |w|, |head| + |w| + |d|);
    RemarkCut(line, head + w + d, t);
  }

  /** The part of the line from the key to the value. */
  function Core(key: string, b: string, c: string, w: string): string {
    key + b + "=" + (if w == "" then "" else c + w)
  }

  lemma WrittenEnds(w: string, value: string)
    requires Writes(w, value)
    ensures w != "" ==> !Blank(w[0]) && !Blank(w[|w| - 1])
    ensures Unquote(w) == value
  {
    if w == "\"" + value + "\"" && '"' !in value {
      assert w[1..|w| - 1] == value;
    } else if w == "'" + value + "'" && '\'' !in value {
      assert w[1..|w| - 1] == value;
    } else if w != "" {
      assert PassesAt(value, 0);
    }
  }

  lemma EntryTrims(key: string, value: string, a: string, b: string, c: string, w: string, d: string)
    requires Plain(key) && Blanks(a) && Blanks(c) && Blanks(d) && Writes(w, value)
    ensures Trim(Head(key, a, b, c) + w + d) == Core(key, b, c, w)
  {
    WrittenEnds(w, value);
    var core := Core(key, b, c, w);
    assert core[0] == key[0] && !Blank(core[|core| - 1]);
    hide Writes, Trim, Plain;
    if w == "" {
      assert Head(key, a, b, c) + w + d == a + core + (c + d);
      TrimWraps(a, core, c + d);
    } else {
      assert Head(key, a, b, c) + w + d == a + core + d;
      TrimWraps(a, core, d);
    }
  }

  lemma CoreEquals(key: string, b: string, c: string, w: string)
    requires Plain(key) && Blanks(b)
    ensures var s := Core(key, b, c, w);
            var eq := |key| + |b|;
            s != "" && s[0] != '[' && eq < |s| && IndexOf(s, '=') == eq
  {
    var s := Core(key, b, c, w);
    var eq := |key| + |b|;
    assert s[0] == key[0] && PlainChar(key[0]) && s[eq] == '=';
    forall j | 0 <= j < eq
      ensures s[j] != '='
    {
      assert s[j] == if j < |key| then key[j] else b[j - |key|];
    }
  }

  lemma SplitsAt(x: string, y: string)
    ensures (x + "=" + y)[..|x|] == x && (x + "=" + y)[|x| + 1..] == y
  {}

  lemma TrimmedParts(key: string, b: string, c: string, w: string)
    requires Plain(key) && Blanks(b) && Blanks(c) && (w != "" ==> !Blank(w[0]) && !Blank(w[|w| - 1]))
    ensures Trim(key + b) == key && Trim(if w == "" then "" else c + w) == w
  {
    hide Trim;
    assert "" + key + b == key + b && c + w + "" == c + w && "" + "" + "" == "";
    TrimWraps("", key, b);
    if w == "" {
      TrimWraps("", "", "");
    } else {
      TrimWraps(c, w, "");
    }
  }

  lemma CoreSplits(key: string, value: string, b: string, c: string, w: string)
    requires Plain(key) && Blanks(b) && Blanks(c) && Writes(w, value)
    ensures var s := Core(key, b, c, w);
            var eq := |key| + |b|;
            && eq < |s| && Trim(s[..eq]) == key && Unquote(Trim(s[eq + 1..])) == value
  {
    WrittenEnds(w, value);
    hide Trim, Writes, Plain, Blanks, Unquote;
    SplitsAt(key + b, if w == "" then "" else c + w);
    TrimmedParts(key, b, c, w);
  }

  lemma StepOfCore(st: State, line: string, s: string, eq: nat)
    requires |line| < 328 && Trim(StripComment(line)) == s
    requires s != "" && s[0] != '[' && eq < |s| && IndexOf(s, '=') == eq
    ensures Step(st, line) == EntryStep(st, Trim(s[..eq]), Unquote(Trim(s[eq + 1..])))
  {}

  lemma EntryFormSteps(st: State, line: string, key: string, value: string, a: string, b: string, c: string,
                       w: string, d: string, t: string)
    requires EntryForm(line, key, value, a, b, c, w, d, t) && Plain(key) && |line| < 328
    ensures Step(st, line) == EntryStep(st, key, value)
  {
    hide *;
    FormParts(line, key, value, a, b, c, w, d, t);
    EntryCuts(line, key, value, a, b, c, w, d, t);
    EntryTrims(key, value, a, b, c, w, d);
    CoreEquals(key, b, c, w);
    CoreSplits(key, value, b, c, w);
    StepOfCore(st, line, Core(key, b, c, w), |key| + |b|);
  }

  /** Whatever its form, an entry line does what its key and value do. */
  lemma EntrySteps(st: State, line: string, key: string, value: string)
    requires EntryLine(line, key, value) && Plain(key) && |line| < 328
    ensures Step(st, line) == EntryStep(st, key, value)
  {
    hide EntryForm, Plain, EntryStep, Step, Writes, Remark, Head;
    var a, b, c, w, d, t :| EntryForm(line, key, value, a, b, c, w, d, t);
    EntryFormSteps(st, line, key, value, a, b, c, w, d, t);
  }

  /** A spelling of a name as it stands between spaces. */
  predicate Spells(s: string, name: string) {
    Names(s, name) && s[0] != ' ' && s[|s| - 1] != ' '
  }

  lemma SpellingIsPlain(s: string, name: string)
    requires Spells(s, name)
    ensures Plain(s) && OneLine(s)
  {
    forall i | 0 <= i < |s|
      ensures PlainChar(s[i]) && (Blank(s[i]) ==> s[i] == ' ')
    {
      assert SpellsChar(s[i], name[i]) && KeyChar(name[i]);
    }
  }

  /**
   An entry line stores its value under the full name of its key, keeps the section and the other
   entries, and is rejected if and only if the full name or the value is too long, the name is
   taken or the table is full.
   */
  lemma EntryExactly(st: State, line: string, spelling: string, key: string, value: string)
    requires EntryLine(line, spelling, value) && Spells(spelling, key) && |line| < 328
    requires |st.entries| <= 64 && NamesSection(st.section, st.section)
    ensures var full := FullKey(st.section, key);
            Step(st, line)
            == if |full| >= 64 || |value| >= 256 || |st.entries| == 64
                  || (exists i :: 0 <= i < |st.entries| && st.entries[i].key == full) then None
               else Some(State(st.section, st.entries + [Entry(full, value)]))
  {
    SpellingIsPlain(spelling, key);
    assert "SOFTPLC_" <= key ==> FullKey(st.section, key) == key && |key| < 64;
    hide Spells, EntryLine, Plain, Step, NamesSection, FullKey, Qualify;
    EntrySteps(st, line, spelling, value);
    QualifyPlaces(st.section, spelling);
    assert Names(spelling, key) by {
      SpelledNames(spelling, key);
    }
  }

  lemma SpelledNames(spelling: string, key: string)
    requires Spells(spelling, key)
    ensures Names(spelling, key)
  {}

  /** A key that writes no name is rejected. */
  lemma NamelessKeyRejected(st: State, line: string, key: string, value: string)
    requires EntryLine(line, key, value) && Plain(key) && forall k :: !Names(key, k)
    ensures Step(st, line) == None
  {
    hide EntryLine, Plain, Names, Qualify;
    if |line| < 328 {
      EntrySteps(st, line, key, value);
      QualifyPlaces(st.section, key);
    }
  }

  // ---------------------------------------------------------------- headers and other lines

  lemma PlainPasses(s: string)
    requires Plain(s)
    ensures Passes(s)
  {
    assert forall i :: 0 <= i < |s| ==> PassesAt(s, i);
  }

  lemma BracketedPasses(section: string, a: string, b: string, c: string, d: string)
    requires Plain(section) && Blanks(a) && Blanks(b) && Blanks(c) && Blanks(d)
    ensures Passes(Bracketed(section, a, b, c) + d)
  {
    PlainPasses(section);
    assert Passes("[") && Passes("]");
    BlanksPass(a);
    BlanksPass(b);
    BlanksPass(c);
    BlanksPass(d);
    hide Passes, Blanks, Plain;
    PassesBoth(a, "[");
    PassesBoth(a + "[", b);
    PassesBoth(a + "[" + b, section);
    PassesBoth(a + "[" + b + section, c);
    PassesBoth(a + "[" + b + section + c, "]");
    PassesBoth(Bracketed(section, a, b, c), d);
  }

  lemma BracketedTrims(section: string, a: string, b: string, c: string, d: string)
    requires Plain(section) && Blanks(a) && Blanks(b) && Blanks(c) && Blanks(d)
    ensures Trim(Bracketed(section, a, b, c) + d) == Bracketed(section, "", b, c)
  {
    var core := Bracketed(section, "", b, c);
    assert core[0] == '[' && core[|core| - 1] == ']';
    assert Bracketed(section, a, b, c) + d == a + core + d;
    hide Bracketed, Plain, Trim;
    TrimWraps(a, core, d);
  }

  lemma BracketedCloses(section: string, b: string, c: string)
    requires Plain(section) && Blanks(b) && Blanks(c)
    ensures var s := Bracketed(section, "", b, c);
            && s != "" && s[0] == '[' && IndexOf(s, ']') == |s| - 1
            && Trim(s[1..|s| - 1]) == section && Trim(s[|s|..]) == ""
  {
    var s := Bracketed(section, "", b, c);
    var inner := b + section + c;
    assert s[0] == '[' && s[|s| - 1] == ']' && s[1..|s| - 1] == inner;
    forall j | 0 <= j < |s| - 1
      ensures s[j] != ']'
    {
      assert s[j] == if j == 0 then '[' else if j <= |b| then b[j - 1]
                     else if j <= |b| + |section| then section[j - 1 - |b|] else c[j - 1 - |b| - |section|];
    }
    TrimWraps(b, section, c);
  }

  lemma HeaderSteps(st: State, line: string, section: string, a: string, b: string, c: string, d: string, t: string)
    requires HeaderForm(line, section, a, b, c, d, t) && Plain(section) && |line| < 328
    ensures Step(st, line) == match Normalise(section)
                              case None => None
                              case Some(name) => Some(State(name, st.entries))
  {
    BracketedPasses(section, a, b, c, d);
    BracketedTrims(section, a, b, c, d);
    BracketedCloses(section, b, c);
    hide Plain, Passes, Blanks, Trim, StripComment, Remark, Bracketed, Normalise;
    PassedCut(line, Bracketed(section, a, b, c) + d, t);
  }

  /** A header opens the section it names, keeps the entries, and is rejected if it writes no name. */
  lemma HeaderExactly(st: State, line: string, section: string)
    requires HeaderLine(line, section) && Plain(section) && |line| < 328
    ensures forall name :: Names(section, name) ==> Step(st, line) == Some(State(name, st.entries))
    ensures (forall name :: !Names(section, name)) ==> Step(st, line) == None
  {
    var a, b, c, d, t :| HeaderForm(line, section, a, b, c, d, t);
    hide HeaderForm, Plain, Step, Normalise, Names;
    HeaderSteps(st, line, section, a, b, c, d, t);
    forall name
      ensures Normalise(section) == Some(name) <==> Names(section, name)
    {
      NormaliseExactly(section, name);
    }
  }

  /** A line with nothing on it changes nothing. */
  lemma EmptyLineSkipped(st: State, line: string)
    requires EmptyLine(line) && |line| < 328
    ensures Step(st, line) == Some(st)
  {
    var a, t :| EmptyForm(line, a, t);
    BlanksPass(a);
    PassedCut(line, a, t);
    assert a == a + "" + "";
    TrimWraps(a, "", "");
  }

  /** A line that is too long, or that is none of the forms, is rejected in every state. */
  lemma StrayRejected(st: State, line: string)
    requires |line| >= 328 || StrayLine(line)
    ensures Step(st, line) == None
  {
    if |line| < 328 {
      var a, s, d, t :| StrayForm(line, a, s, d, t);
      StrayTrims(line, a, s, d, t);
    }
  }

  lemma StrayTrims(line: string, a: string, s: string, d: string, t: string)
    requires StrayForm(line, a, s, d, t)
    ensures Trim(StripComment(line)) == s
  {
    BlanksPass(a);
    BlanksPass(d);
    assert Passes(s) && !Blank(s[0]) && !Blank(s[|s| - 1]);
    hide Passes, Trim, StripComment, Blanks, Remark;
    PassesBoth(a, s);
    PassesBoth(a + s, d);
    PassedCut(line, a + s + d, t);
    TrimWraps(a, s, d);
  }

  // ---------------------------------------------------------------- texts

  /** A line in front is a line in front, of the text and of a longer one. */
  lemma LineInFront(line: string, more: string, rest: string)
    requires OneLine(line)
    ensures Lines(line + "\n" + more + rest) == [line] + Lines(more + rest)
    ensures Lines(line + "\n" + more) == [line] + Lines(more)
  {
    hide Lines, OneLine;
    assert line + "\n" + more + rest == line + "\n" + (more + rest);
    FirstLine(line, more + rest);
    FirstLine(line, more);
  }

  /** The lines of two texts, the first of which ends in a newline. */
  lemma {:induction false} LinesAppend(ended: string, rest: string)
    requires ended == "" || ended[|ended| - 1] == '\n'
    ensures Lines(ended + rest) == Lines(ended) + Lines(rest)
    decreases |ended|
  {
    if ended == "" {
      assert ended + rest == rest && Lines(ended) == [];
    } else {
      hide Lines, IndexOf, OneLine;
      var line, more := FirstOf(ended);
      LineInFront(line, more, rest);
      LinesAppend(more, rest);
      Regroup([line], Lines(more), Lines(rest));
    }
  }

  lemma FirstOf(ended: string) returns (line: string, more: string)
    requires ended != "" && ended[|ended| - 1] == '\n'
    ensures OneLine(line) && ended == line + "\n" + more && |more| < |ended|
    ensures more == "" || more[|more| - 1] == '\n'
  {
    hide IndexOf;
    var n := IndexOf(ended, '\n');
    line, more := ended[..n], ended[n + 1..];
  }

  lemma {:induction false} StrayStops(st: State, lines: seq<string>, line: string, rest: seq<string>)
    requires |line| >= 328 || StrayLine(line)
    ensures ParseLines(st, lines + ([line] + rest)) == Outcome(false, ParseLines(st, lines).entries)
    decreases |lines|
  {
    hide StrayLine, Step;
    var all := lines + ([line] + rest);
    if lines == [] {
      StrayRejected(st, line);
    } else {
      assert all[0] == lines[0] && all[1..] == lines[1..] + ([line] + rest);
      if Step(st, lines[0]).Some? {
        StrayStops(Step(st, lines[0]).value, lines[1..], line, rest);
      }
    }
  }

  /** Parsing stops at the first bad line: it fails, and what came before that line is what is stored. */
  lemma BadLineStops(before: string, line: string, rest: string)
    requires OneLine(line) && (|line| >= 328 || StrayLine(line))
    ensures ParseText(before + "\n" + (line + "\n" + rest)) == Outcome(false, ParseText(before + "\n").entries)
  {
    hide StrayLine, Lines, ParseLines, OneLine;
    LinesAppend(before + "\n", line + "\n" + rest);
    FirstLine(line, rest);
    StrayStops(State("", []), Lines(before + "\n"), line, Lines(rest));
  }

  /** Two lines that both parse, one after the other. */
  lemma TwoSteps(first: string, second: string, mid: State, end: State)
    requires OneLine(first) && OneLine(second) && second != ""
    requires Step(State("", []), first) == Some(mid) && Step(mid, second) == Some(end)
    ensures ParseText(first + "\n" + second) == Outcome(true, end.entries)
  {
    hide Step, Lines, OneLine;
    FirstLine(first, second);
    LastLine(second);
    ParseFirst(State("", []), first, mid, [second]);
    ParseFirst(mid, second, end, []);
    assert [second] + [] == [second];
  }

  lemma NonEmptyEntry(line: string, key: string, value: string)
    requires EntryLine(line, key, value) && Plain(key)
    ensures line != ""
  {}

  lemma FoundUnder(full: string, value: string, fallback: string)
    requires IsName(full) && "SOFTPLC_" <= full && value != ""
    ensures Lookup([Entry(full, value)], map[], full, fallback) == value
  {
    PrefixedStays("", full);
  }

  lemma FullKeyIsName(section: string, key: string)
    requires IsName(key) && NamesSection(section, section) && |FullKey(section, key)| < 64
    ensures IsName(FullKey(section, key)) && "SOFTPLC_" <= FullKey(section, key)
  {}

  /**
   The naming rule on whole texts. A key under the header of section S is found under
   SOFTPLC_S_KEY, or under SOFTPLC_KEY if S is CORE or SOFTPLC, or under itself if it carries the
   prefix already, however section and key are spelled and the value is written.
   */
  lemma UnderHeaderFound(header: string, section: string, name: string, line: string, spelling: string, key: string,
                         value: string, fallback: string)
    requires HeaderLine(header, section) && Spells(section, name) && OneLine(header) && |header| < 328
    requires EntryLine(line, spelling, value) && Spells(spelling, key) && OneLine(line) && |line| < 328
    requires |FullKey(name, key)| < 64 && 0 < |value| < 256
    ensures var text := header + "\n" + line;
            && ParseText(text) == Outcome(true, [Entry(FullKey(name, key), value)])
            && Lookup(ParseText(text).entries, map[], FullKey(name, key), fallback) == value
  {
    SpellingIsPlain(section, name);
    SpellingIsPlain(spelling, key);
    assert IsName(name) && IsName(key) && Names(section, name);
    SelfNamed(name);
    hide Spells, HeaderLine, EntryLine, Plain, OneLine, Step, Lookup, FullKey, ParseText, NamesSection, IsName;
    HeaderExactly(State("", []), header, section);
    EntryExactly(State(name, []), line, spelling, key, value);
    NonEmptyEntry(line, spelling, value);
    assert [] + [Entry(FullKey(name, key), value)] == [Entry(FullKey(name, key), value)];
    TwoSteps(header, line, State(name, []), State(name, [Entry(FullKey(name, key), value)]));
    FullKeyIsName(name, key);
    FoundUnder(FullKey(name, key), value, fallback);
  }

  lemma SelfNamed(name: string)
    requires IsName(name)
    ensures Names(name, name) && NamesSection(name, name)
  {}

  /** Without a header the key is found under SOFTPLC_KEY, or under itself if it carries the prefix. */
  lemma NoHeaderFound(line: string, spelling: string, key: string, value: string, fallback: string)
    requires EntryLine(line, spelling, value) && Spells(spelling, key) && OneLine(line) && |line| < 328
    requires |FullKey("", key)| < 64 && 0 < |value| < 256
    ensures ParseText(line) == Outcome(true, [Entry(FullKey("", key), value)])
    ensures Lookup(ParseText(line).entries, map[], FullKey("", key), fallback) == value
  {
    SpellingIsPlain(spelling, key);
    assert IsName(key) && NamesSection("", "");
    hide Spells, EntryLine, Plain, OneLine, Step, Lookup, FullKey, Lines, NamesSection, IsName;
    var full := FullKey("", key);
    EntryExactly(State("", []), line, spelling, key, value);
    NonEmptyEntry(line, spelling, value);
    LastLine(line);
    assert [] + [Entry(full, value)] == [Entry(full, value)];
    ParseFirst(State("", []), line, State("", [Entry(full, value)]), []);
    assert [line] + [] == [line];
    FullKeyIsName("", key);
    FoundUnder(full, value, fallback);
  }

  /** A key set twice, in whatever spellings, is an error; the first value stays. */
  lemma RepeatedKeyRejected(line: string, spelling: string, value: string, again: string, other: string,
                            second: string, key: string)
    requires EntryLine(line, spelling, value) && Spells(spelling, key) && OneLine(line) && |line| < 328
    requires EntryLine(again, other, second) && Spells(other, key) && OneLine(again) && |again| < 328
    requires |FullKey("", key)| < 64 && |value| < 256
    ensures ParseText(line + "\n" + again) == Outcome(false, [Entry(FullKey("", key), value)])
  {
    SpellingIsPlain(spelling, key);
    SpellingIsPlain(other, key);
    assert NamesSection("", "");
    hide Spells, EntryLine, Plain, OneLine, Step, FullKey, Lines, NamesSection;
    var e := Entry(FullKey("", key), value);
    EntryExactly(State("", []), line, spelling, key, value);
    NonEmptyEntry(again, other, second);
    FirstLine(line, again);
    LastLine(again);
    assert [] + [e] == [e] && [e][0].key == FullKey("", key);
    EntryExactly(State("", [e]), again, other, key, second);
    ParseFirst(State("", []), line, State("", [e]), [again]);
  }

  // ---------------------------------------------------------------- the usual way to write it

  lemma UsualEntry(key: string, value: string)
    requires '"' !in value
    ensures EntryLine(key + " = \"" + value + "\"", key, value)
  {
    var w := "\"" + value + "\"";
    var line := key + " = \"" + value + "\"";
    assert Head(key, "", " ", " ") + w + "" + "" == line;
    assert EntryForm(line, key, value, "", " ", " ", w, "", "");
  }

  lemma UsualHeader(section: string)
    ensures HeaderLine("[" + section + "]", section)
  {
    var line := "[" + section + "]";
    assert Bracketed(section, "", "", "") + "" + "" == line;
    assert HeaderForm(line, section, "", "", "", "", "");
  }

  /** `[section]`, a newline and `key = "value"`: found under SOFTPLC_SECTION_KEY. */
  lemma SectionedIsFound(section: string, name: string, spelling: string, key: string, value: string, fallback: string)
    requires Spells(section, name) && Spells(spelling, key) && !("SOFTPLC_" <= key)
    requires name != "CORE" && name != "SOFTPLC" && |"SOFTPLC_" + name + "_" + key| < 64
    requires 0 < |value| < 256 && '"' !in value && '\n' !in value
    ensures var text := ("[" + section + "]") + "\n" + (spelling + " = \"" + value + "\"");
            Lookup(ParseText(text).entries, map[], "SOFTPLC_" + name + "_" + key, fallback) == value
  {
    SpellingIsPlain(section, name);
    SpellingIsPlain(spelling, key);
    assert name != "" && |section| < 64 && |spelling| < 64;
    assert FullKey(name, key) == "SOFTPLC_" + name + "_" + key;
    hide FullKey, Spells, HeaderLine, EntryLine, Lookup, ParseText, Plain;
    UsualHeader(section);
    UsualEntry(spelling, value);
    UnderHeaderFound("[" + section + "]", section, name, spelling + " = \"" + value + "\"", spelling, key, value,
                     fallback);
  }

  /** Under `[core]`, under `[softplc]` and under no header it is found under SOFTPLC_KEY. */
  lemma UnsectionedIsFound(section: string, name: string, spelling: string, key: string, value: string,
                           fallback: string)
    requires Spells(section, name) && Spells(spelling, key) && !("SOFTPLC_" <= key)
    requires (name == "CORE" || name == "SOFTPLC") && |"SOFTPLC_" + key| < 64
    requires 0 < |value| < 256 && '"' !in value && '\n' !in value
    ensures var line := spelling + " = \"" + value + "\"";
            && Lookup(ParseText(line).entries, map[], "SOFTPLC_" + key, fallback) == value
            && Lookup(ParseText(("[" + section + "]") + "\n" + line).entries, map[], "SOFTPLC_" + key, fallback)
            == value
  {
    SpellingIsPlain(section, name);
    SpellingIsPlain(spelling, key);
    assert |section| < 64 && |spelling| < 64;
    assert FullKey(name, key) == FullKey("", key) == "SOFTPLC_" + key;
    hide FullKey, Spells, HeaderLine, EntryLine, Lookup, ParseText, Plain;
    UsualHeader(section);
    UsualEntry(spelling, value);
    UnderHeaderFound("[" + section + "]", section, name, spelling + " = \"" + value + "\"", spelling, key, value,
                     fallback);
    NoHeaderFound(spelling + " = \"" + value + "\"", spelling, key, value, fallback);
  }

  // ---------------------------------------------------------------- lookups

  /** A lookup under any spelling: the environment first, then the entry under the full name, then the fallback. */
  lemma LookupExactly(text: string, env: map<string, string>, spelling: string, key: string, fallback: string)
    requires Names(spelling, key) && |FullKey("", key)| < 64
    ensures var full := FullKey("", key);
            var entries := ParseText(text).entries;
            var r := Lookup(entries, env, spelling, fallback);
            if full in env && env[full] != "" then r == env[full]
            else
              && (forall i :: 0 <= i < |entries| && entries[i].key == full && entries[i].value != "" ==>
                                r == entries[i].value)
              && ((forall i :: 0 <= i < |entries| && entries[i].key == full ==> entries[i].value == "") ==>
                    r == fallback)
  {
    assert NamesSection("", "");
    assert "SOFTPLC_" <= key ==> FullKey("", key) == key;
    hide Names, NamesSection, FullKey;
    QualifyPlaces("", spelling);
    StoredIsFound(text, env, spelling, fallback);
    hide Lookup, ParseText, Qualify, Placed;
  }
}

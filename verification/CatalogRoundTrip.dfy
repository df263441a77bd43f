/** The catalog writer, and what reading its file gives back. */
module CatalogRoundTrip {
  import opened PoText
  import opened CatalogModel
  import opened CatalogTheorems
  import Utf8

  /** One message as it is written: lines retired before it, the notes a translator
    * sees, whether it is a guess, the key, the English and its translation, empty
    * when there is none yet, and whatever lines stand behind it that spoil it. */
  datatype Message = Message(retired: seq<text>, notes: seq<text>, fuzzy: bool,
                             key: text, english: text, translation: text, spoilers: seq<text>)

  datatype Header = Header(language: text, charset: text, abi: nat)

  datatype File = File(preamble: seq<text>, header: Header, messages: seq<Message>)

  /** Text the writer puts between quotes as it stands. */
  predicate Plain(s: text) {
    forall i | 0 <= i < |s| :: !IsControl(s[i]) && s[i] != '"' && s[i] != '\\'
  }

  predicate OneLine(s: text) {
    forall i | 0 <= i < |s| :: s[i] != '\n'
  }

  function Unlines(lines: seq<text>): text {
    if lines == [] then [] else lines[0] + "\n" + Unlines(lines[1..])
  }

  function Noted(mark: text, notes: seq<text>): (r: seq<text>)
    ensures |r| == |notes|
  {
    seq(|notes|, i requires 0 <= i < |notes| => mark + notes[i])
  }

  function QuoteLine(word: text, body: text): text { word + " \"" + body + "\"" }

  function FlagLines(m: Message): seq<text> { if m.fuzzy then ["#, " + "fuzzy"] else [] }

  function KeyedLines(m: Message): seq<text> {
    [QuoteLine("msgctxt", m.key), QuoteLine("msgid", Escape(m.english)), QuoteLine("msgstr", Escape(m.translation))]
  }

  function MessageLines(m: Message): seq<text> {
    [[]] + Noted("#~ ", m.retired) + Noted("#. ", m.notes) + FlagLines(m) + KeyedLines(m) + m.spoilers
  }

  function AllMessageLines(ms: seq<Message>): seq<text> {
    if ms == [] then [] else MessageLines(ms[0]) + AllMessageLines(ms[1..])
  }

  function ContentType(charset: text): text { "text/plain; " + ("charset=" + charset) }

  function HeaderFields(h: Header): seq<text> {
    ["Project-Id-Version: plang", "Language: " + h.language, "MIME-Version: 1.0",
     "Content-Type:" + " " + ContentType(h.charset), "Content-Transfer-Encoding: 8bit",
     "X-Plang-Catalog-ABI:" + " " + Decimal(h.abi)]
  }

  function FieldLines(fields: seq<text>): (r: seq<text>)
    ensures |r| == |fields|
  {
    seq(|fields|, i requires 0 <= i < |fields| => "\"" + fields[i] + "\\n\"")
  }

  function FileLines(f: File): seq<text> {
    Noted("# ", f.preamble)
    + [QuoteLine("msgid", []), QuoteLine("msgstr", [])] + FieldLines(HeaderFields(f.header))
    + AllMessageLines(f.messages)
  }

  /** A line that makes no part of an entry: the plurals of gettext, or no keyword,
    * string or comment at all. */
  predicate Spoiler(l: text) {
    && (forall i | 0 <= i < |l| :: !IsControl(l[i]))
    && ("msgid_plural " <= l || "msgstr[" <= l || (l != [] && l[0] !in " #m\""))
  }

  predicate MessageOk(m: Message) {
    && (forall n <- m.retired :: OneLine(n)) && (forall n <- m.notes :: OneLine(n))
    && Plain(m.key) && Clean(m.english) && Clean(m.translation)
    && forall l <- m.spoilers :: Spoiler(l)
  }

  /** The charset goes to the end of its line, where blanks do not count. */
  predicate HeaderOk(h: Header) {
    Plain(h.language) && Plain(h.charset) && TrimEnd(h.charset) == h.charset
  }

  predicate FileOk(f: File) {
    (forall n <- f.preamble :: OneLine(n)) && HeaderOk(f.header) && forall m <- f.messages :: MessageOk(m)
  }

  // ---- text and lines ----

  lemma {:induction false} FindLine(l: text, rest: text)
    requires OneLine(l)
    ensures Find(l + "\n" + rest, '\n') == |l|
  {
    var s := l + "\n" + rest;
    assert s[|l|] == '\n';
    assert forall i | 0 <= i < |l| :: s[i] == l[i];
  }

  /** The first line is split off where it was joined on. */
  lemma {:induction false} FirstLineSplits(l: text, rest: text)
    requires OneLine(l)
    ensures RawLines(l + "\n" + rest) == [l] + RawLines(rest)
  {
    hide OneLine, Find;
    var t := l + "\n" + rest;
    FindLine(l, rest);
    assert t[..|l|] == l && t[|l| + 1..] == rest;
  }

  lemma {:induction false} UnlinesStep(lines: seq<text>)
    requires lines != []
    ensures Unlines(lines) == lines[0] + "\n" + Unlines(lines[1..])
  {
  }

  /** Splitting undoes joining, with the empty line after the last newline. */
  lemma {:induction false} LinesReadBack(lines: seq<text>)
    requires forall l <- lines :: OneLine(l)
    ensures RawLines(Unlines(lines)) == lines + [[]]
  {
    hide OneLine, RawLines, Unlines;
    if lines == [] {
      NothingJoined();
    } else {
      UnlinesStep(lines);
      FirstLineSplits(lines[0], Unlines(lines[1..]));
      LinesReadBack(lines[1..]);
      assert lines + [[]] == [lines[0]] + (lines[1..] + [[]]);
    }
  }

  lemma NothingJoined()
    ensures RawLines(Unlines([])) == [[]]
  {
    NothingFound();
  }

  lemma NothingFound()
    ensures Find([], '\n') == 0
  {
  }

  // ---- one line at a time ----

  lemma {:induction false} FindQuote(word: text, body: text)
    requires forall i | 0 <= i < |word| :: word[i] != '"'
    ensures QuotedIn(word + "\"" + body) == QuotedBody(body)
  {
    hide QuotedBody;
    var line := word + "\"" + body;
    assert line[|word|] == '"' && line[|word| + 1..] == body;
    assert forall i | 0 <= i < |word| :: line[i] == word[i];
  }

  /** What a keyword line says, once the writer has escaped it. */
  lemma {:induction false} QuoteLineReads(word: text, s: text)
    requires word in ["msgctxt", "msgid", "msgstr"] && Clean(s)
    ensures var line := QuoteLine(word, Escape(s));
            && QuotedIn(line) == Quoted(true, s) && Trimmed(line) == line
            && Classify(line) == if word == "msgctxt" then CtxtLine else if word == "msgid" then IdLine else StrLine
  {
    hide QuotedBody, Clean, Find, Escape;
    var line := QuoteLine(word, Escape(s));
    var w := word + " ";
    assert line == w + "\"" + (Escape(s) + "\"");
    FindQuote(w, Escape(s) + "\"");
    EscapeReadsBack(s);
    assert line[0] == 'm' && line[|line| - 1] == '"';
    Keywords(word, "\"" + (Escape(s) + "\""));
    assert line == word + " " + ("\"" + (Escape(s) + "\""));
  }

  lemma Keywords(word: text, rest: text)
    requires word in ["msgctxt", "msgid", "msgstr"]
    ensures Classify(word + " " + rest)
            == if word == "msgctxt" then CtxtLine else if word == "msgid" then IdLine else StrLine
  {
    var line := word + " " + rest;
    assert line[0] == 'm' && word <= line && line[|word|] == ' ';
    assert line[3] == word[3] && line[4] == word[4];
    if word == "msgid" {
      assert line[5] == ' ';
    } else if word == "msgstr" {
      assert line[6] == ' ';
    }
  }

  lemma {:induction false} EscapePlain(s: text)
    requires Plain(s)
    ensures Escape(s) == s && Clean(s)
  {
    if s != [] {
      EscapePlain(s[1..]);
      assert s == [s[0]] + s[1..];
    }
  }

  lemma {:induction false} EscapeJoins(a: text, b: text)
    ensures Escape(a + b) == Escape(a) + Escape(b)
  {
    hide EscapeChar;
    if a == [] {
      assert a + b == b;
    } else {
      EscapeJoins(a[1..], b);
      assert (a + b)[1..] == a[1..] + b && (a + b)[0] == a[0];
      Associates(EscapeChar(a[0]), Escape(a[1..]), Escape(b));
    }
  }

  lemma Associates(a: text, b: text, c: text)
    ensures (a + b) + c == a + (b + c)
  {
  }

  function FieldLine(field: text): text { "\"" + field + "\\n\"" }

  lemma NewlineClean()
    ensures Clean("\n") && Escape("\n") == "\\n"
  {
  }

  lemma {:induction false} FieldEscaped(field: text)
    requires Plain(field)
    ensures Escape(field + "\n") == field + "\\n" && Clean(field + "\n")
  {
    hide Clean, Plain, Escape;
    EscapePlain(field);
    NewlineClean();
    EscapeJoins(field, "\n");
    CleanJoins(field, "\n");
  }

  lemma QuoteFirst(line: text)
    requires line != [] && line[0] == '"' && line[|line| - 1] == '"'
    ensures Trimmed(line) == line && Classify(line) == Continuation
  {
  }

  lemma {:induction false} FieldLineReads(field: text)
    requires Plain(field)
    ensures var line := FieldLine(field);
            && QuotedIn(line) == Quoted(true, field + "\n") && Trimmed(line) == line && Classify(line) == Continuation
  {
    hide QuotedBody, QuotedIn, Clean, Escape, Trimmed, Classify, Plain;
    var line := FieldLine(field);
    var body := (field + "\\n") + "\"";
    FieldEscaped(field);
    EscapeReadsBack(field + "\n");
    assert line == [] + "\"" + body;
    FindQuote([], body);
    QuoteFirst(line);
  }

  lemma {:induction false} NoteReads(mark: text, note: text, sc: Scan)
    requires mark == "# " || mark == "#. "
    ensures NextScan(sc, mark + note) == sc
    ensures !EndsEntry(sc, Classify(Trimmed(mark + note)))
  {
    var raw := mark + note;
    var cut := if raw[|raw| - 1] == '\r' then raw[..|raw| - 1] else raw;
    assert raw[0] == '#' && raw[1] == mark[1];
    assert Trimmed(raw) == cut;
  }

  lemma {:induction false} NotesRead(mark: text, notes: seq<text>, sc: Scan, more: seq<text>)
    requires mark == "# " || mark == "#. "
    ensures Entries(sc, Noted(mark, notes) + more) == Entries(sc, more)
  {
    hide NextScan, EndsEntry, Trimmed, Classify;
    if notes == [] {
      assert Noted(mark, notes) + more == more;
    } else {
      var lines := Noted(mark, notes) + more;
      NoteReads(mark, notes[0], sc);
      NotesRead(mark, notes[1..], sc, more);
      assert Noted(mark, notes)[1..] == Noted(mark, notes[1..]);
      assert lines[1..] == Noted(mark, notes[1..]) + more;
      assert lines[0] == mark + notes[0];
    }
  }

  lemma {:induction false} FlagReads(m: Message, sc: Scan, more: seq<text>)
    requires !sc.pendingFuzzy
    ensures Entries(sc, FlagLines(m) + more) == Entries(sc.(pendingFuzzy := m.fuzzy), more)
  {
    hide Entries;
    if m.fuzzy {
      var l: text := "#, " + "fuzzy";
      AfterSkips("#, ", "fuzzy", "fuzzy");
      assert Trimmed(l) == l;
      assert NextScan(sc, l) == sc.(pendingFuzzy := true);
      EntriesStep(sc, l, more);
    } else {
      assert FlagLines(m) + more == more;
    }
  }

  lemma {:induction false} RetiredReads(note: text, sc: Scan)
    ensures EndsEntry(sc, Classify(Trimmed("#~ " + note))) && NextScan(sc, "#~ " + note) == Cleared(sc)
  {
    var raw := "#~ " + note;
    var cut := if raw[|raw| - 1] == '\r' then raw[..|raw| - 1] else raw;
    assert raw[0] == '#' && raw[1] == '~';
    assert Trimmed(raw) == cut;
  }

  function Blanks(n: nat): seq<Pending> { seq(n, _ => BLANK) }

  /** Retired lines hand on the empty entry, line by line. */
  lemma {:induction false} AllRetiredRead(notes: seq<text>, sc: Scan, more: seq<text>)
    requires sc.p == BLANK && sc.cur == NoField
    ensures Entries(sc, Noted("#~ ", notes) + more) == Blanks(|notes|) + Entries(sc, more)
  {
    hide Entries, NextScan, EndsEntry, Trimmed, Classify;
    if notes == [] {
      assert Noted("#~ ", notes) + more == more && Blanks(0) + Entries(sc, more) == Entries(sc, more);
    } else {
      var tail := Noted("#~ ", notes[1..]) + more;
      assert Noted("#~ ", notes) + more == ["#~ " + notes[0]] + tail;
      EntriesStep(sc, "#~ " + notes[0], tail);
      RetiredReads(notes[0], sc);
      AllRetiredRead(notes[1..], sc, more);
      assert [BLANK] + (Blanks(|notes| - 1) + Entries(sc, more)) == Blanks(|notes|) + Entries(sc, more);
    }
  }

  lemma {:induction false} SpoilerReads(l: text, sc: Scan)
    requires Spoiler(l)
    ensures !EndsEntry(sc, Classify(Trimmed(l)))
    ensures NextScan(sc, l).p == sc.p.(bad := true) && NextScan(sc, l).pendingFuzzy == sc.pendingFuzzy
  {
    hide QuotedIn, After;
    assert l != [] && !IsControl(l[|l| - 1]) && !IsControl(l[0]);
    assert Trimmed(l) == l;
    if "msgid_plural " <= l {
      assert l[3] == 'i' && l[5] == '_' && l[12] == ' ' && "msgid_plural" <= l;
    } else if "msgstr[" <= l {
      assert l[3] == 's' && l[6] == '[';
    } else {
      assert Classify(l) == Junk || Classify(l) == Continuation;
    }
  }

  lemma {:induction false} SpoilersRead(ls: seq<text>, sc: Scan, more: seq<text>) returns (cur: Field)
    requires forall l <- ls :: Spoiler(l)
    ensures Entries(sc, ls + more) == Entries(Scan(sc.p.(bad := sc.p.bad || ls != []), cur, sc.pendingFuzzy), more)
  {
    hide Entries, NextScan, EndsEntry, Trimmed, Classify, Spoiler;
    if ls == [] {
      assert ls + more == more;
      cur := sc.cur;
    } else {
      SpoilerReads(ls[0], sc);
      EntriesStep(sc, ls[0], ls[1..] + more);
      assert ls + more == [ls[0]] + (ls[1..] + more);
      cur := SpoilersRead(ls[1..], NextScan(sc, ls[0]), more);
    }
  }

  // ---- one message ----

  function PendingOf(m: Message): Pending {
    Pending(m.key, m.english, m.translation, true, true, m.fuzzy, m.spoilers != [])
  }

  lemma {:induction false} EntriesStep(sc: Scan, l: text, more: seq<text>)
    ensures Entries(sc, [l] + more)
            == (if EndsEntry(sc, Classify(Trimmed(l))) then [sc.p] else []) + Entries(NextScan(sc, l), more)
  {
    assert ([l] + more)[1..] == more;
  }

  lemma {:induction false} KeyedLinesRead(m: Message, more: seq<text>)
    requires MessageOk(m)
    ensures Entries(Scan(BLANK, NoField, m.fuzzy), KeyedLines(m) + more)
            == [BLANK] + Entries(Scan(PendingOf(m).(bad := false), Str, false), more)
  {
    hide Clean, Escape, Trimmed, Classify, QuotedIn, Plain, Entries;
    var (l0, l1, l2) := (QuoteLine("msgctxt", m.key), QuoteLine("msgid", Escape(m.english)),
                         QuoteLine("msgstr", Escape(m.translation)));
    var start := Scan(BLANK, NoField, m.fuzzy);
    EscapePlain(m.key);
    QuoteLineReads("msgctxt", m.key);
    QuoteLineReads("msgid", m.english);
    QuoteLineReads("msgstr", m.translation);
    var p0 := BLANK.(ctxt := m.key, hasCtxt := true, fuzzy := m.fuzzy);
    assert [] + m.key == m.key && [] + m.english == m.english && [] + m.translation == m.translation;
    assert NextScan(start, l0) == Scan(p0, Ctxt, false);
    var p1 := p0.(id := m.english);
    assert NextScan(Scan(p0, Ctxt, false), l1) == Scan(p1, Id, false);
    assert NextScan(Scan(p1, Id, false), l2) == Scan(PendingOf(m).(bad := false), Str, false);
    EntriesStep(start, l0, [l1, l2] + more);
    EntriesStep(Scan(p0, Ctxt, false), l1, [l2] + more);
    EntriesStep(Scan(p1, Id, false), l2, more);
    assert [l0, l1, l2] + more == [l0] + ([l1, l2] + more);
    assert [l1, l2] + more == [l1] + ([l2] + more);
  }

  lemma {:induction false} MessageReads(m: Message, sc: Scan, more: seq<text>) returns (cur: Field)
    requires MessageOk(m) && !sc.pendingFuzzy
    ensures Entries(sc, MessageLines(m) + more)
            == [sc.p] + Blanks(|m.retired| + 1) + Entries(Scan(PendingOf(m), cur, false), more)
  {
    hide Entries, Escape, Noted, FlagLines, KeyedLines, Plain, Spoiler, Clean;
    var keyed := KeyedLines(m) + (m.spoilers + more);
    var noted := Noted("#. ", m.notes) + (FlagLines(m) + keyed);
    assert MessageLines(m) + more == [[]] + (Noted("#~ ", m.retired) + noted);
    EntriesStep(sc, [], Noted("#~ ", m.retired) + noted);
    assert NextScan(sc, []) == START;
    AllRetiredRead(m.retired, START, noted);
    NotesRead("#. ", m.notes, START, FlagLines(m) + keyed);
    FlagReads(m, START, keyed);
    KeyedLinesRead(m, m.spoilers + more);
    cur := SpoilersRead(m.spoilers, Scan(PendingOf(m).(bad := false), Str, false), more);
    assert [sc.p] + (Blanks(|m.retired|) + ([BLANK] + Entries(Scan(PendingOf(m), cur, false), more)))
        == [sc.p] + Blanks(|m.retired| + 1) + Entries(Scan(PendingOf(m), cur, false), more);
  }

  /** The entries after `prev`: every message is preceded by the end of the one
    * before it and by the empty entries of its blank and retired lines. */
  function Log(prev: Pending, ms: seq<Message>): seq<Pending>
    decreases |ms|
  {
    if ms == [] then [prev, BLANK] else [prev] + Blanks(|ms[0].retired| + 1) + Log(PendingOf(ms[0]), ms[1..])
  }

  lemma {:induction false} MessagesRead(ms: seq<Message>, sc: Scan)
    requires !sc.pendingFuzzy && forall m <- ms :: MessageOk(m)
    ensures Entries(sc, AllMessageLines(ms) + [[]]) == Log(sc.p, ms)
    decreases |ms|
  {
    hide MessageOk, Entries, MessageLines, Blanks;
    if ms == [] {
      assert AllMessageLines(ms) + [[]] == [[]] + [];
      EntriesStep(sc, [], []);
      assert Entries(START, []) == [BLANK] by {
        NoMoreLines(START);
      }
      assert NextScan(sc, []) == START;
    } else {
      var more := AllMessageLines(ms[1..]) + [[]];
      assert AllMessageLines(ms) + [[]] == MessageLines(ms[0]) + more;
      var cur := MessageReads(ms[0], sc, more);
      MessagesRead(ms[1..], Scan(PendingOf(ms[0]), cur, false));
    }
  }

  lemma NoMoreLines(sc: Scan)
    ensures Entries(sc, []) == [sc.p]
  {
  }

  // ---- the header ----

  function HeaderText(fields: seq<text>): text {
    if fields == [] then [] else fields[0] + "\n" + HeaderText(fields[1..])
  }

  function HeaderPending(str: text): Pending { Pending([], [], str, false, true, false, false) }

  lemma {:induction false} FieldStep(f: text, before: text)
    requires Plain(f)
    ensures var sc := Scan(HeaderPending(before), Str, false);
            && NextScan(sc, FieldLine(f)) == Scan(HeaderPending(before + (f + "\n")), Str, false)
            && !EndsEntry(sc, Classify(Trimmed(FieldLine(f))))
  {
    hide Trimmed, Classify, QuotedIn;
    FieldLineReads(f);
  }

  lemma {:induction false} FieldsRead(fields: seq<text>, before: text, more: seq<text>)
    requires forall f <- fields :: Plain(f)
    ensures Entries(Scan(HeaderPending(before), Str, false), FieldLines(fields) + more)
            == Entries(Scan(HeaderPending(before + HeaderText(fields)), Str, false), more)
  {
    hide Plain, Entries;
    if fields == [] {
      assert FieldLines(fields) + more == more && before + HeaderText(fields) == before;
    } else {
      hide NextScan, Trimmed, Classify, EndsEntry;
      var f := fields[0];
      var sc := Scan(HeaderPending(before), Str, false);
      FieldStep(f, before);
      assert FieldLines(fields) + more == [FieldLine(f)] + (FieldLines(fields[1..]) + more);
      EntriesStep(sc, FieldLine(f), FieldLines(fields[1..]) + more);
      FieldsRead(fields[1..], before + (f + "\n"), more);
      assert before + (f + "\n") + HeaderText(fields[1..]) == before + HeaderText(fields);
    }
  }

  lemma {:induction false} HeaderReads(h: Header, more: seq<text>)
    requires HeaderOk(h)
    ensures Entries(START, [QuoteLine("msgid", []), QuoteLine("msgstr", [])] + FieldLines(HeaderFields(h)) + more)
            == Entries(Scan(HeaderPending(HeaderText(HeaderFields(h))), Str, false), more)
  {
    hide Entries, Trimmed, Classify, QuotedIn;
    var fields := HeaderFields(h);
    var (l0, l1, tail) := (QuoteLine("msgid", []), QuoteLine("msgstr", []), FieldLines(fields) + more);
    FieldsPlain(h);
    QuoteLineReads("msgid", []);
    QuoteLineReads("msgstr", []);
    assert NextScan(START, l0) == Scan(BLANK, Id, false);
    assert NextScan(Scan(BLANK, Id, false), l1) == Scan(HeaderPending([]), Str, false);
    assert [l0, l1] + FieldLines(fields) + more == [l0] + ([l1] + tail);
    EntriesStep(START, l0, [l1] + tail);
    EntriesStep(Scan(BLANK, Id, false), l1, tail);
    FieldsRead(fields, [], more);
    assert [] + HeaderText(fields) == HeaderText(fields);
  }

  lemma Plain0()
    ensures Plain("Project-Id-Version: plang")
  {
  }

  lemma Plain1(language: text)
    requires Plain(language)
    ensures Plain("Language: " + language)
  {
  }

  lemma Plain2()
    ensures Plain("MIME-Version: 1.0")
  {
  }

  lemma Plain3(charset: text)
    requires Plain(charset)
    ensures Plain("Content-Type:" + " " + ContentType(charset))
  {
    assert Plain("Content-Type:" + " ") && Plain("text/plain; ") && Plain("charset=");
  }

  lemma Plain4()
    ensures Plain("Content-Transfer-Encoding: 8bit")
  {
  }

  lemma Plain5(abi: nat)
    ensures Plain("X-Plang-Catalog-ABI:" + " " + Decimal(abi))
  {
    DecimalDigits(abi);
    assert Plain("X-Plang-Catalog-ABI:" + " ");
  }

  lemma FieldsPlain(h: Header)
    requires HeaderOk(h)
    ensures forall f <- HeaderFields(h) :: Plain(f)
  {
    hide Plain;
    Plain0();
    Plain1(h.language);
    Plain2();
    Plain3(h.charset);
    Plain4();
    Plain5(h.abi);
  }

  lemma {:induction false} FieldSkipped(l: text, rest: text, key: text)
    requires Plain(l) && key != [] && !(|l| > |key| && key <= l)
    ensures HeaderField(l + "\n" + rest, key) == HeaderField(rest, key)
  {
    hide Find, Strip;
    var h := l + "\n" + rest;
    FindLine(l, rest);
    assert h[..|l|] == l && h[|l| + 1..] == rest;
  }

  lemma {:induction false} FieldFound(l: text, rest: text, key: text)
    requires Plain(l) && key != [] && |l| > |key| && key <= l
    ensures HeaderField(l + "\n" + rest, key) == Strip(l[|key|..])
  {
    hide Find, Strip;
    var h := l + "\n" + rest;
    FindLine(l, rest);
    assert h[..|l|] == l;
  }

  lemma {:induction false} AfterSkips(a: text, s: text, pat: text)
    requires pat != [] && forall i | 0 <= i < |a| :: a[i] != pat[0]
    ensures After(a + s, pat) == After(s, pat)
  {
    if a == [] {
      assert a + s == s;
    } else {
      AfterSkips(a[1..], s, pat);
      assert (a + s)[1..] == a[1..] + s && (a + s)[0] == a[0];
      if |a + s| < |pat| {
        TooShort(s, pat);
      }
    }
  }

  lemma TooShort(s: text, pat: text)
    requires |s| < |pat|
    ensures After(s, pat) == NoTail
  {
  }

  lemma {:induction false} CharsetJudged(charset: text)
    requires TrimEnd(charset) == charset
    ensures CharsetVerdict(ContentType(charset))
            == if Lower(charset) in ["utf-8", "utf8", "ascii", "us-ascii"] then NoFatal else BadCharset(Lower(charset))
  {
    hide After, Lower, TrimEnd;
    var pat: text := "charset=";
    AfterSkips("text/plain; ", pat + charset, pat);
    AfterFound(pat, charset);
  }

  lemma AfterFound(pat: text, s: text)
    ensures After(pat + s, pat) == Tail(s)
  {
    assert (pat + s)[|pat|..] == s;
  }

  lemma {:induction false} ContentTypeValue(charset: text)
    ensures var s: text := "Content-Type:" + " " + ContentType(charset);
            "Content-Type:" <= s && Strip(s[|"Content-Type:"|..]) == ContentType(charset)
  {
    var key: text := "Content-Type:";
    var s: text := key + " " + ContentType(charset);
    assert s[|key|..] == " " + ContentType(charset);
    BlankStripped(ContentType(charset));
  }

  lemma BlankStripped(s: text)
    requires s != [] && !IsBlank(s[0])
    ensures Strip(" " + s) == s
  {
    assert (" " + s)[1..] == s;
  }

  lemma {:induction false} FieldsSkipped(fields: seq<text>, n: nat, key: text)
    requires n <= |fields| && key != []
    requires forall i | 0 <= i < n :: Plain(fields[i]) && fields[i] != [] && fields[i][0] != key[0]
    ensures HeaderField(HeaderText(fields), key) == HeaderField(HeaderText(fields[n..]), key)
    decreases n
  {
    hide HeaderField, Plain;
    if n == 0 {
      assert fields[0..] == fields;
    } else {
      assert !(key <= fields[0]);
      FieldSkipped(fields[0], HeaderText(fields[1..]), key);
      FieldsSkipped(fields[1..], n - 1, key);
      assert fields[1..][n - 1..] == fields[n..];
    }
  }

  lemma {:induction false} ContentTypeFound(h: Header)
    requires HeaderOk(h)
    ensures HeaderField(HeaderText(HeaderFields(h)), "Content-Type:") == ContentType(h.charset)
  {
    hide HeaderField, Plain, Strip, ContentType, TrimEnd;
    var fields := HeaderFields(h);
    FieldsPlain(h);
    FieldsSkipped(fields, 3, "Content-Type:");
    assert HeaderText(fields[3..]) == fields[3] + "\n" + HeaderText(fields[4..]) by {
      assert fields[3..][1..] == fields[4..];
    }
    ContentTypeValue(h.charset);
    FieldFound(fields[3], HeaderText(fields[4..]), "Content-Type:");
  }

  lemma {:induction false} AbiFound(h: Header)
    requires HeaderOk(h)
    ensures HeaderField(HeaderText(HeaderFields(h)), "X-Plang-Catalog-ABI:") == Decimal(h.abi)
  {
    hide HeaderField, Plain, Strip, ContentType, TrimEnd;
    var fields := HeaderFields(h);
    FieldsPlain(h);
    FieldsSkipped(fields, 5, "X-Plang-Catalog-ABI:");
    assert HeaderText(fields[5..]) == fields[5] + "\n" + HeaderText(fields[6..]) by {
      assert fields[5..][1..] == fields[6..];
    }
    FieldFound(fields[5], HeaderText(fields[6..]), "X-Plang-Catalog-ABI:");
    assert fields[5][|"X-Plang-Catalog-ABI:"|..] == " " + Decimal(h.abi);
    DecimalDigits(h.abi);
    BlankStripped(Decimal(h.abi));
  }

  /** What a header is refused for: another charset first, then a newer ABI, told no
    * larger than 64 bits hold. */
  function Complaint(h: Header): Fatal {
    if Lower(h.charset) !in ["utf-8", "utf8", "ascii", "us-ascii"] then BadCharset(Lower(h.charset))
    else if h.abi >= 2 then NewerAbi(if h.abi < 0x1_0000_0000_0000_0000 then h.abi else 0xFFFF_FFFF_FFFF_FFFF)
    else NoFatal
  }

  lemma {:induction false} HeaderJudged(h: Header)
    requires HeaderOk(h)
    ensures HeaderVerdict(HeaderText(HeaderFields(h))) == Complaint(h)
  {
    hide HeaderText, HeaderField, HeaderFields, CharsetVerdict, Number, Lower;
    ContentTypeFound(h);
    AbiFound(h);
    CharsetJudged(h.charset);
    DecimalReads(h.abi);
  }

  // ---- the file ----

  lemma {:induction false} LinesOk(ms: seq<Message>)
    requires forall m <- ms :: MessageOk(m)
    ensures forall l <- AllMessageLines(ms) :: OneLine(l)
  {
    hide OneLine, MessageOk;
    if ms != [] {
      MessageLinesOk(ms[0]);
      LinesOk(ms[1..]);
    }
  }

  lemma {:induction false} EscapeOneLine(s: text)
    ensures OneLine(Escape(s))
  {
    if s != [] {
      EscapeOneLine(s[1..]);
      assert OneLine(EscapeChar(s[0]));
    }
  }

  lemma QuoteLineOneLine(word: text, body: text)
    requires OneLine(word) && OneLine(body)
    ensures OneLine(QuoteLine(word, body))
  {
  }

  lemma OneLineJoins(a: text, b: text)
    requires OneLine(a) && OneLine(b)
    ensures OneLine(a + b)
  {
  }

  lemma NotedOneLine(mark: text, notes: seq<text>)
    requires OneLine(mark) && forall n <- notes :: OneLine(n)
    ensures forall l <- Noted(mark, notes) :: OneLine(l)
  {
    hide OneLine;
    forall l | l in Noted(mark, notes)
      ensures OneLine(l)
    {
      var i :| 0 <= i < |notes| && l == Noted(mark, notes)[i];
      OneLineJoins(mark, notes[i]);
    }
  }

  lemma PlainOneLine(s: text)
    requires Plain(s)
    ensures OneLine(s)
  {
  }

  lemma {:induction false} MessageLinesOk(m: Message)
    requires MessageOk(m)
    ensures forall l <- MessageLines(m) :: OneLine(l)
  {
    NotedOneLine("#~ ", m.retired);
    NotedOneLine("#. ", m.notes);
    SpoilersOneLine(m.spoilers);
    FlagOneLine(m);
    PlainOneLine(m.key);
    EscapeOneLine(m.english);
    EscapeOneLine(m.translation);
    QuoteLineOneLine("msgctxt", m.key);
    QuoteLineOneLine("msgid", Escape(m.english));
    QuoteLineOneLine("msgstr", Escape(m.translation));
    hide OneLine, QuoteLine, Noted, Plain, Clean, FlagLines, Spoiler;
    assert OneLine([]) by {
      EscapeOneLine([]);
    }
  }

  lemma SpoilersOneLine(ls: seq<text>)
    requires forall l <- ls :: Spoiler(l)
    ensures forall l <- ls :: OneLine(l)
  {
  }

  lemma FlagOneLine(m: Message)
    ensures forall l <- FlagLines(m) :: OneLine(l)
  {
  }

  lemma FieldLineOneLine(f: text)
    requires Plain(f)
    ensures OneLine(FieldLine(f))
  {
  }

  lemma {:induction false} FileLinesOk(f: File)
    requires FileOk(f)
    ensures forall l <- FileLines(f) :: OneLine(l)
  {
    var fields := HeaderFields(f.header);
    NotedOneLine("# ", f.preamble);
    QuoteLineOneLine("msgid", []);
    QuoteLineOneLine("msgstr", []);
    FieldsPlain(f.header);
    LinesOk(f.messages);
    hide OneLine, QuoteLine, Noted, Plain, MessageOk, HeaderFields, AllMessageLines;
    forall l | l in FieldLines(fields)
      ensures OneLine(l)
    {
      var i :| 0 <= i < |fields| && l == FieldLines(fields)[i];
      FieldLineOneLine(fields[i]);
    }
  }

  lemma NoBom(t: text)
    requires t != [] ==> t[0] != BOM[0]
    ensures SkipBom(t) == t
  {
  }

  /** The file starts with a note or with the header. */
  lemma {:induction false} FileHasNoBom(f: File)
    ensures SkipBom(Unlines(FileLines(f))) == Unlines(FileLines(f))
  {
    hide AllMessageLines, HeaderFields, Unlines;
    var lines := FileLines(f);
    assert lines[0] == if f.preamble == [] then QuoteLine("msgid", []) else "# " + f.preamble[0];
    assert lines[0][0] in "#m";
    UnlinesStarts(lines);
    NoBom(Unlines(lines));
  }

  lemma UnlinesStarts(lines: seq<text>)
    requires lines != [] && lines[0] != []
    ensures Unlines(lines) != [] && Unlines(lines)[0] == lines[0][0]
  {
  }

  /** The entries of a written file: its header and its messages. */
  lemma {:induction false} FileReads(f: File)
    requires FileOk(f)
    ensures EntriesOf(Unlines(FileLines(f)))
            == Log(HeaderPending(HeaderText(HeaderFields(f.header))), f.messages)
  {
    hide Entries, Plain, OneLine, MessageOk, HeaderText, RawLines, Unlines, Noted, QuoteLine, FieldLines, HeaderFields, AllMessageLines, Log, SkipBom;
    var fields := FieldLines(HeaderFields(f.header));
    var header := [QuoteLine("msgid", []), QuoteLine("msgstr", [])];
    var more := AllMessageLines(f.messages) + [[]];
    FileHasNoBom(f);
    FileLinesOk(f);
    LinesReadBack(FileLines(f));
    assert FileLines(f) + [[]] == Noted("# ", f.preamble) + (header + fields + more);
    NotesRead("# ", f.preamble, START, header + fields + more);
    HeaderReads(f.header, more);
    MessagesRead(f.messages, Scan(HeaderPending(HeaderText(HeaderFields(f.header))), Str, false));
  }

  // ---- what comes back ----

  function Pendings(ms: seq<Message>): seq<Pending> {
    if ms == [] then [] else [PendingOf(ms[0])] + Pendings(ms[1..])
  }

  /** The entries that say anything. */
  function Sift(log: seq<Pending>): seq<Pending> {
    if log == [] then [] else (if log[0] == BLANK then [] else [log[0]]) + Sift(log[1..])
  }

  /** Empty entries change nothing. */
  lemma {:induction false} SiftOverlay(base: map<text, text>, log: seq<Pending>, cfg: Config)
    ensures Overlay(base, log, cfg) == Overlay(base, Sift(log), cfg)
    decreases |log|
  {
    hide Judge;
    if log != [] {
      SiftOverlay(if Judged(log[0], Loaded, cfg) then base[log[0].ctxt := log[0].str] else base, log[1..], cfg);
      assert Sift(log) == if log[0] == BLANK then Sift(log[1..]) else [log[0]] + Sift(log[1..]);
      assert log[0] != BLANK ==> Sift(log)[1..] == Sift(log[1..]);
    }
  }

  lemma {:induction false} SiftCounts(log: seq<Pending>, v: Verdict, cfg: Config)
    ensures CountOf(log, v, cfg) == CountOf(Sift(log), v, cfg) && Strays(log) == Strays(Sift(log))
  {
    hide Judge;
    if log != [] {
      SiftCounts(log[1..], v, cfg);
      assert Sift(log) == if log[0] == BLANK then Sift(log[1..]) else [log[0]] + Sift(log[1..]);
      assert log[0] != BLANK ==> Sift(log)[1..] == Sift(log[1..]);
    }
  }

  lemma {:induction false} SiftJoins(a: seq<Pending>, b: seq<Pending>)
    ensures Sift(a + b) == Sift(a) + Sift(b)
  {
    if a == [] {
      assert a + b == b;
    } else {
      assert (a + b)[1..] == a[1..] + b;
      SiftJoins(a[1..], b);
    }
  }

  lemma {:induction false} SiftBlanks(n: nat)
    ensures Sift(Blanks(n)) == []
  {
    if n > 0 {
      assert Blanks(n)[1..] == Blanks(n - 1);
      SiftBlanks(n - 1);
    }
  }

  lemma {:induction false} SiftLog(prev: Pending, ms: seq<Message>)
    requires prev != BLANK
    ensures Sift(Log(prev, ms)) == [prev] + Pendings(ms)
    decreases |ms|
  {
    assert Sift([prev]) == [prev] by {
      assert [prev][1..] == [];
    }
    SiftBlanks(1);
    if ms == [] {
      SiftJoins([prev], Blanks(1));
      assert [prev] + Blanks(1) == [prev, BLANK];
    } else {
      hide Sift, Blanks;
      var (gap, more) := (Blanks(|ms[0].retired| + 1), Log(PendingOf(ms[0]), ms[1..]));
      SiftBlanks(|ms[0].retired| + 1);
      SiftJoins([prev] + gap, more);
      SiftJoins([prev], gap);
      SiftLog(PendingOf(ms[0]), ms[1..]);
    }
  }

  lemma PendingsUnstray(ms: seq<Message>)
    ensures Strays(Pendings(ms)) == 0
  {
  }

  lemma {:induction false} HeaderFirst(str: text, ms: seq<Message>)
    ensures var log := Log(HeaderPending(str), ms);
            HeaderIndex(log) == 0 && HasHeader(log) && FatalOf(log) == HeaderVerdict(str)
  {
    hide HeaderVerdict;
  }

  /** Reading a written file: refused for its header alone, with nothing changed and
    * nothing counted, and otherwise read as exactly the messages written. */
  lemma {:induction false} WrittenFileReads(f: File, entries: map<text, text>, merge: bool, cfg: Config)
    requires FileOk(f)
    ensures var (c, ps) := (Load(entries, Unlines(FileLines(f)), merge, cfg), Pendings(f.messages));
            if Complaint(f.header) != NoFatal then c == Catalog(NOTHING.(fatal := Complaint(f.header)), entries)
            else
              && c.r == Report(CountOf(ps, Loaded, cfg), CountOf(ps, Fuzzy, cfg), CountOf(ps, Untranslated, cfg),
                               CountOf(ps, Unknown, cfg), CountOf(ps, Malformed, cfg), NoFatal)
              && c.entries == Overlay(if merge then entries else map[], ps, cfg)
  {
    var (t, ps, str) := (Unlines(FileLines(f)), Pendings(f.messages), HeaderText(HeaderFields(f.header)));
    var header := HeaderPending(str);
    FileReads(f);
    HeaderFirst(str, f.messages);
    HeaderJudged(f.header);
    RefusedIff(entries, t, merge, cfg);
    if Complaint(f.header) != NoFatal {
      RefusedAtOnce(f, entries, merge, cfg);
    } else {
      LoadIsOverlay(entries, t, merge, cfg);
      SiftLog(header, f.messages);
      SiftOverlay(if merge then entries else map[], Log(header, f.messages), cfg);
      HeaderIgnored(if merge then entries else map[], header, ps, cfg);
      PendingsUnstray(f.messages);
      forall v: Verdict
        ensures CountOf(Log(header, f.messages), v, cfg) == CountOf(ps, v, cfg) && Strays(Log(header, f.messages)) == 1
      {
        SiftCounts(Log(header, f.messages), v, cfg);
        HeaderUncounted(header, ps, v, cfg);
      }
    }
    hide *;
  }

  /** The header is the first entry: nothing has been counted when it refuses. */
  lemma {:induction false} RefusedAtOnce(f: File, entries: map<text, text>, merge: bool, cfg: Config)
    requires FileOk(f) && Complaint(f.header) != NoFatal
    ensures Load(entries, Unlines(FileLines(f)), merge, cfg).r == NOTHING.(fatal := Complaint(f.header))
  {
    hide ReadLines, Entries, Unlines, FileLines, MessageOk, HeaderOk, Complaint, HeaderVerdict, HeaderFields, HeaderText;
    var (t, str) := (Unlines(FileLines(f)), HeaderText(HeaderFields(f.header)));
    var tally := Tally(false, if merge then entries else map[], NOTHING);
    FileReads(f);
    HeaderJudged(f.header);
    OnePass(Reader(START, tally), RawLines(SkipBom(t)), cfg);
    assert Log(HeaderPending(str), f.messages)[0] == HeaderPending(str);
  }

  lemma HeaderIgnored(base: map<text, text>, header: Pending, ps: seq<Pending>, cfg: Config)
    requires !header.hasCtxt
    ensures Overlay(base, [header] + ps, cfg) == Overlay(base, ps, cfg)
  {
    assert ([header] + ps)[1..] == ps;
  }

  lemma HeaderUncounted(header: Pending, ps: seq<Pending>, v: Verdict, cfg: Config)
    requires !header.hasCtxt
    ensures CountOf([header] + ps, v, cfg) == CountOf(ps, v, cfg)
    ensures Strays([header] + ps) == (if IsStray(header) then 1 else 0) + Strays(ps)
  {
    assert ([header] + ps)[1..] == ps;
  }
}

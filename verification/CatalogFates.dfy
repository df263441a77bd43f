/** What becomes of every message of a written file, told by the message itself. */
module CatalogFates {
  import opened PoText
  import opened CatalogModel
  import opened CatalogTheorems
  import opened CatalogRoundTrip
  import Utf8

  /** The placeholder `%d` stands somewhere in the text. */
  ghost predicate Mentions(s: text, d: octet) {
    exists i | 0 <= i <= |s| :: ['%', d] <= s[i..]
  }

  ghost predicate SamePlaceholders(s: text, t: text) {
    forall d: octet | '0' <= d <= '9' :: Mentions(s, d) <==> Mentions(t, d)
  }

  /** A key of the compiler's: a diagnostic it has, a token or a label. */
  predicate Known(key: text, cfg: Config) {
    ("diag/" <= key && key[5..] in cfg.english) || "token/" <= key || "label/" <= key
  }

  ghost predicate Encoded(s: text) {
    exists scalars :: Utf8.EncodeAll(scalars) == Octets(s)
  }

  /** The counter a message raises: the first complaint that applies. */
  ghost function Fate(m: Message, cfg: Config): Verdict {
    if m.spoilers != [] then Malformed
    else if !Known(m.key, cfg) then Unknown
    else if m.translation == "" then Untranslated
    else if m.fuzzy && !cfg.honourFuzzy then Fuzzy
    else if !Encoded(m.translation)
            || ("diag/" <= m.key && m.key[5..] in cfg.english
                && !SamePlaceholders(m.translation, cfg.english[m.key[5..]])) then Malformed
    else Loaded
  }

  lemma {:induction false} MentionsIsUses(s: text, d: octet)
    requires '0' <= d <= '9'
    ensures Mentions(s, d) <==> Uses(s, d)
  {
    if Mentions(s, d) {
      var i :| 0 <= i <= |s| && ['%', d] <= s[i..];
      assert s[i..][0] == s[i] && s[i..][1] == s[i + 1];
      assert PlaceholderAt(s, i);
    }
    if Uses(s, d) {
      var i :| PlaceholderAt(s, i) && s[i + 1] == d;
      assert s[i..][0] == s[i] && s[i..][1] == s[i + 1];
      assert ['%', d] <= s[i..];
    }
  }

  lemma {:induction false} PlaceholdersAgree(s: text, t: text)
    ensures SamePlaceholders(s, t) <==> DigitsUsed(s) == DigitsUsed(t)
  {
    hide Mentions, Uses, DigitsUsed;
    forall d: octet
      ensures d in DigitsUsed(s) <==> Uses(s, d)
      ensures d in DigitsUsed(t) <==> Uses(t, d)
      ensures '0' <= d <= '9' ==> (Mentions(s, d) <==> Uses(s, d)) && (Mentions(t, d) <==> Uses(t, d))
    {
      DigitsUsedAre(s, d);
      DigitsUsedAre(t, d);
      if '0' <= d <= '9' {
        MentionsIsUses(s, d);
        MentionsIsUses(t, d);
      }
    }
    if SamePlaceholders(s, t) {
      forall c: char
        ensures c in DigitsUsed(s) <==> c in DigitsUsed(t)
      {
        OnlyDigits(s, c);
        OnlyDigits(t, c);
      }
    }
  }

  lemma {:induction false} OnlyDigits(s: text, c: char)
    ensures c in DigitsUsed(s) ==> '0' <= c <= '9'
  {
    DigitsUsedAre(s, c);
  }

  lemma EncodedIff(s: text)
    ensures Encoded(s) <==> Utf8.Valid(Octets(s))
  {
    hide Utf8.Valid, Octets;
    Utf8.ValidIffEncoding(Octets(s));
    if Encoded(s) {
      var scalars :| Utf8.EncodeAll(scalars) == Octets(s);
      Utf8.EncodingIsValid(scalars);
    }
    if Utf8.Valid(Octets(s)) {
      var vs :| Utf8.EncodeAll(vs) == Octets(s);
      assert Encoded(s);
    }
  }

  /** Each entry is judged by what was written of the message. */
  lemma {:induction false} JudgedByFate(m: Message, cfg: Config)
    ensures Judge(PendingOf(m), cfg) == Fate(m, cfg)
  {
    hide Utf8.Valid, Octets, DigitsUsed, SamePlaceholders, Encoded;
    EncodedIff(m.translation);
    assert DIAG == "diag/" && TOKEN == "token/" && LABEL == "label/" && |DIAG| == 5;
    if "diag/" <= m.key && m.key[5..] in cfg.english {
      PlaceholdersAgree(m.translation, cfg.english[m.key[5..]]);
    }
    assert !("diag/" <= m.key && ("token/" <= m.key || "label/" <= m.key)) by {
      assert "diag/"[0] == 'd' && "token/"[0] == 't' && "label/"[0] == 'l';
    }
  }

  ghost function CountFate(ms: seq<Message>, v: Verdict, cfg: Config): nat {
    if ms == [] then 0 else (if Fate(ms[0], cfg) == v then 1 else 0) + CountFate(ms[1..], v, cfg)
  }

  lemma {:induction false} FatesCounted(ms: seq<Message>, v: Verdict, cfg: Config)
    ensures CountOf(Pendings(ms), v, cfg) == CountFate(ms, v, cfg)
  {
    hide Judge, Fate;
    if ms != [] {
      JudgedByFate(ms[0], cfg);
      FatesCounted(ms[1..], v, cfg);
      assert Pendings(ms)[1..] == Pendings(ms[1..]);
    }
  }

  /** The last message for the key that may be shown. */
  ghost predicate Speaks(ms: seq<Message>, i: nat, key: text, cfg: Config) {
    && i < |ms| && ms[i].key == key && Fate(ms[i], cfg) == Loaded
    && forall j | i < j < |ms| :: ms[j].key == key ==> Fate(ms[j], cfg) != Loaded
  }

  /** No message may be shown for the key. */
  ghost predicate Silent(ms: seq<Message>, key: text, cfg: Config) {
    forall i | 0 <= i < |ms| :: ms[i].key == key ==> Fate(ms[i], cfg) != Loaded
  }

  lemma {:induction false} OverlaySpeaks(base: map<text, text>, ms: seq<Message>, key: text, cfg: Config)
    ensures var all := Overlay(base, Pendings(ms), cfg);
            && (forall i: nat | Speaks(ms, i, key, cfg) :: key in all && all[key] == ms[i].translation)
            && (Silent(ms, key, cfg) ==> (key in all <==> key in base) && (key in base ==> all[key] == base[key]))
    decreases |ms|
  {
    hide Judge, Fate;
    if ms != [] {
      var (m, rest) := (ms[0], ms[1..]);
      JudgedByFate(m, cfg);
      var next := if Fate(m, cfg) == Loaded then base[m.key := m.translation] else base;
      assert Pendings(ms)[1..] == Pendings(rest);
      OverlaySpeaks(next, rest, key, cfg);
      assert forall i | 0 < i < |ms| :: ms[i] == rest[i - 1];
      assert forall i: nat | Speaks(ms, i, key, cfg) && i > 0 :: Speaks(rest, i - 1, key, cfg);
      assert Speaks(ms, 0, key, cfg) ==> Silent(rest, key, cfg);
      assert Silent(ms, key, cfg) ==> Silent(rest, key, cfg) && (next == base || m.key != key);
    }
  }

  /** Every message raises the one counter of its fate, and the messages in use are
    * the last loadable ones over what was there before. */
  lemma {:induction false} FatesOfFile(f: File, entries: map<text, text>, merge: bool, cfg: Config)
    requires FileOk(f) && Complaint(f.header) == NoFatal
    ensures var (c, ms) := (Load(entries, Unlines(FileLines(f)), merge, cfg), f.messages);
            && c.r == Report(CountFate(ms, Loaded, cfg), CountFate(ms, Fuzzy, cfg), CountFate(ms, Untranslated, cfg),
                             CountFate(ms, Unknown, cfg), CountFate(ms, Malformed, cfg), NoFatal)
            && (forall i: nat, key | Speaks(ms, i, key, cfg) :: key in c.entries && c.entries[key] == ms[i].translation)
            && (forall key | Silent(ms, key, cfg) ::
                  && (key in c.entries <==> merge && key in entries)
                  && (key in c.entries ==> c.entries[key] == entries[key]))
  {
    hide Load, Overlay, FileLines, Unlines, FileOk, Silent, CountFate, CountOf, Pendings;
    var base := if merge then entries else map[];
    WrittenFileReads(f, entries, merge, cfg);
    forall v: Verdict
      ensures CountOf(Pendings(f.messages), v, cfg) == CountFate(f.messages, v, cfg)
    {
      FatesCounted(f.messages, v, cfg);
    }
    forall key: text
      ensures var all := Overlay(base, Pendings(f.messages), cfg);
              && (forall i: nat | i < |f.messages| && Speaks(f.messages, i, key, cfg) :: key in all && all[key] == f.messages[i].translation)
              && (Silent(f.messages, key, cfg) ==> (key in all <==> key in base) && (key in base ==> all[key] == base[key]))
    {
      OverlaySpeaks(base, f.messages, key, cfg);
    }
  }

  /** Flagging one message withholds that message and no other: it is counted as fuzzy
    * instead of loaded, and what is in use for any other key does not change. */
  lemma {:induction false} FlagWithholds(f: File, k: nat, entries: map<text, text>, merge: bool, cfg: Config)
    requires FileOk(f) && Complaint(f.header) == NoFatal && Distinct(f.messages) && !cfg.honourFuzzy
    requires k < |f.messages| && Fate(f.messages[k], cfg) == Loaded
    ensures var flagged := f.(messages := f.messages[k := f.messages[k].(fuzzy := true)]);
            var (c, d) := (Load(entries, Unlines(FileLines(f)), merge, cfg), Load(entries, Unlines(FileLines(flagged)), merge, cfg));
            var key := f.messages[k].key;
            && d.r.(loaded := d.r.loaded + 1) == c.r.(fuzzy := c.r.fuzzy + 1)
            && (key in d.entries <==> merge && key in entries)
            && (key in d.entries ==> d.entries[key] == entries[key])
            && (forall other | other != key ::
                  && (other in d.entries <==> other in c.entries)
                  && (other in c.entries ==> d.entries[other] == c.entries[other]))
  {
    hide Load, FileLines, Unlines, Fate;
    var ms := f.messages;
    var flagged := f.(messages := ms[k := ms[k].(fuzzy := true)]);
    var ns := flagged.messages;
    FlaggedFate(ms[k], cfg);
    FatesOfFile(f, entries, merge, cfg);
    assert FileOk(flagged) by {
      assert ms[k] in ms && MessageOk(ms[k]);
      assert MessageOk(ms[k].(fuzzy := true));
      assert forall n <- ns :: n in ms || n == ms[k].(fuzzy := true);
    }
    FatesOfFile(flagged, entries, merge, cfg);
    forall v: Verdict
      ensures CountFate(ns, v, cfg) == CountFate(ms, v, cfg) + (if v == Fuzzy then 1 else 0) - (if v == Loaded then 1 else 0)
    {
      TallyChanges(ms, k, ns[k], v, cfg);
    }
    assert Silent(ns, ms[k].key, cfg);
    forall other | other != ms[k].key
      ensures Silent(ms, other, cfg) ==> Silent(ns, other, cfg)
      ensures forall i: nat | Speaks(ms, i, other, cfg) :: Speaks(ns, i, other, cfg) && ns[i] == ms[i]
      ensures Silent(ms, other, cfg) || exists i: nat :: Speaks(ms, i, other, cfg)
    {
      SomeSpeaks(ms, other, cfg);
    }
  }

  lemma {:induction false} SomeSpeaks(ms: seq<Message>, key: text, cfg: Config)
    requires Distinct(ms)
    ensures Silent(ms, key, cfg) || exists i: nat :: Speaks(ms, i, key, cfg)
  {
    hide Fate;
    if !Silent(ms, key, cfg) {
      var i :| 0 <= i < |ms| && ms[i].key == key && Fate(ms[i], cfg) == Loaded;
      assert Speaks(ms, i, key, cfg);
    }
  }

  lemma {:induction false} FlaggedFate(m: Message, cfg: Config)
    requires Fate(m, cfg) == Loaded && !cfg.honourFuzzy
    ensures Fate(m.(fuzzy := true), cfg) == Fuzzy
  {
    hide Known, Encoded, SamePlaceholders;
  }

  lemma {:induction false} TallyChanges(ms: seq<Message>, k: nat, n: Message, v: Verdict, cfg: Config)
    requires k < |ms|
    ensures CountFate(ms[k := n], v, cfg) == CountFate(ms, v, cfg) + (if Fate(n, cfg) == v then 1 else 0)
                                         - (if Fate(ms[k], cfg) == v then 1 else 0)
    decreases |ms|
  {
    hide Fate;
    var ns := ms[k := n];
    if k == 0 {
      assert ns[1..] == ms[1..];
    } else {
      TallyChanges(ms[1..], k - 1, n, v, cfg);
      assert ns[1..] == ms[1..][k - 1 := n];
    }
  }

  predicate Distinct(ms: seq<Message>) {
    forall i, j | 0 <= i < j < |ms| :: ms[i].key != ms[j].key
  }

  /** A finished translation comes back message for message, and nothing in the
    * report says otherwise. */
  lemma {:induction false} TranslationsComeBack(f: File, entries: map<text, text>, merge: bool, cfg: Config)
    requires FileOk(f) && Complaint(f.header) == NoFatal && Distinct(f.messages)
    requires forall m <- f.messages :: Fate(m, cfg) == Loaded
    ensures var c := Load(entries, Unlines(FileLines(f)), merge, cfg);
            && c.r == NOTHING.(loaded := |f.messages|)
            && forall m <- f.messages :: m.key in c.entries && c.entries[m.key] == m.translation
  {
    hide Load, FileLines, Unlines, FileOk, Fate, Complaint;
    FatesOfFile(f, entries, merge, cfg);
    AllLoaded(f.messages, cfg);
    forall m | m in f.messages
      ensures exists i: nat | i < |f.messages| :: f.messages[i] == m && Speaks(f.messages, i, m.key, cfg)
    {
      var i :| 0 <= i < |f.messages| && f.messages[i] == m;
      assert Speaks(f.messages, i, m.key, cfg);
    }
  }

  lemma {:induction false} AllLoaded(ms: seq<Message>, cfg: Config)
    requires forall m <- ms :: Fate(m, cfg) == Loaded
    ensures forall v :: CountFate(ms, v, cfg) == if v == Loaded then |ms| else 0
  {
    hide Fate;
    if ms != [] {
      AllLoaded(ms[1..], cfg);
    }
  }

  /** The English as its own translation. */
  ghost predicate InEnglish(m: Message, cfg: Config) {
    && "diag/" <= m.key && m.key[5..] in cfg.english
    && m.english == m.translation == cfg.english[m.key[5..]] != []
    && Encoded(m.english) && !m.fuzzy && m.spoilers == []
  }

  /** What the writer puts out for the compiler's own messages is what is read. */
  lemma {:induction false} EnglishRoundTrips(f: File, cfg: Config)
    requires FileOk(f) && Distinct(f.messages) && f.header.charset == "UTF-8" && f.header.abi == 1
    requires forall m <- f.messages :: InEnglish(m, cfg)
    ensures var c := Load(map[], Unlines(FileLines(f)), false, cfg);
            && c.r == NOTHING.(loaded := |f.messages|)
            && forall m <- f.messages :: m.key in c.entries && c.entries[m.key] == m.english
  {
    hide Load, FileLines, Unlines, FileOk, Mentions, Encoded;
    assert Lower("UTF-8") == "utf-8";
    TranslationsComeBack(f, map[], false, cfg);
  }

  // ---- entries without a key, and strings over several lines ----

  /** A msgid behind a translation begins another entry, which adopts the flags before
    * it; anywhere else it goes on with the entry under way. */
  lemma {:induction false} BareEntryBegins(sc: Scan, english: text, more: seq<text>)
    requires Clean(english)
    ensures Entries(sc, ["msgid" + " \"" + Escape(english) + "\""] + more)
            == if sc.cur == Str then [sc.p] + Entries(Scan(BLANK.(id := english, fuzzy := sc.pendingFuzzy), Id, false), more)
               else Entries(Scan(sc.p.(id := sc.p.id + english), Id, sc.pendingFuzzy), more)
  {
    hide Entries, Clean, Escape, Trimmed, Classify, QuotedIn;
    var line := QuoteLine("msgid", Escape(english));
    QuoteLineReads("msgid", english);
    EntriesStep(sc, line, more);
    assert [] + english == english;
  }

  /** A string on a line of its own goes on with the last field begun; behind no field,
    * or one that was broken off, it spoils the entry. */
  lemma {:induction false} StringGoesOn(sc: Scan, s: text, more: seq<text>)
    requires Clean(s)
    ensures Entries(sc, ["\"" + Escape(s) + "\""] + more)
            == Entries(sc.(p := match sc.cur
                                case NoField => sc.p.(bad := true)
                                case Ctxt => sc.p.(ctxt := sc.p.ctxt + s)
                                case Id => sc.p.(id := sc.p.id + s)
                                case Str => sc.p.(str := sc.p.str + s)), more)
  {
    hide Entries, Clean, Escape, Trimmed, Classify, QuotedIn, QuotedBody;
    var line: text := "\"" + Escape(s) + "\"";
    assert line == [] + "\"" + (Escape(s) + "\"");
    FindQuote([], Escape(s) + "\"");
    EscapeReadsBack(s);
    assert line[0] == '"' && line[|line| - 1] == '"';
    QuoteFirst(line);
    EntriesStep(sc, line, more);
  }

  // ---- marks and line ends ----

  /** A byte order mark in front changes nothing. */
  lemma {:induction false} MarkIgnored(t: text, entries: map<text, text>, merge: bool, cfg: Config)
    requires t != [] ==> t[0] as int != 0xEF
    ensures Load(entries, [0xEF as char, 0xBB as char, 0xBF as char] + t, merge, cfg) == Load(entries, t, merge, cfg)
  {
    hide ReadLines;
    var mark: text := [0xEF as char, 0xBB as char, 0xBF as char];
    assert mark <= mark + t && (mark + t)[3..] == t;
    assert t != [] ==> t[0] != mark[0];
    assert SkipBom(mark + t) == t && SkipBom(t) == t;
  }

  function CrLf(lines: seq<text>): (r: seq<text>)
    ensures |r| == |lines|
  {
    seq(|lines|, i requires 0 <= i < |lines| => lines[i] + "\r")
  }

  /** Lines ended by CR LF are read as the lines they are. */
  lemma {:induction false} CrLfRead(sc: Scan, lines: seq<text>)
    requires forall l <- lines :: l == [] || l[|l| - 1] != '\r'
    ensures Entries(sc, CrLf(lines)) == Entries(sc, lines)
    decreases |lines|
  {
    hide Classify, Take, Strip;
    if lines != [] {
      var (l, m) := (lines[0], lines[0] + "\r");
      assert m[..|m| - 1] == l && CrLf(lines)[0] == m;
      assert Trimmed(m) == Trimmed(l);
      assert CrLf(lines)[1..] == CrLf(lines[1..]);
      CrLfRead(NextScan(sc, l), lines[1..]);
    }
  }
}

/** The .po reader as a state machine over lines, and what it amounts to: cut the
  * file into entries, then judge each entry by itself. */
module CatalogModel {
  import opened PoText
  import Utf8

  // ---- what a line is ----

  datatype LineKind = Break | Comment(fuzzy: bool) | CtxtLine | Plural | IdLine | StrLine | Continuation | Junk

  /** `word` as a whole keyword: msgid is not a prefix match for msgid_plural. */
  predicate Keyword(s: text, word: text) {
    word <= s && (|s| > |word| ==> IsBlank(s[|word|]) || s[|word|] == '"')
  }

  function Classify(line: text): LineKind {
    if line == [] then Break
    else if line[0] == '#' then
      if |line| > 1 && line[1] == '~' then Break
      else Comment(|line| > 1 && line[1] == ',' && After(line, "fuzzy").Tail?)
    else if Keyword(line, "msgctxt") then CtxtLine
    else if Keyword(line, "msgid_plural") || "msgstr[" <= line then Plural
    else if Keyword(line, "msgid") then IdLine
    else if Keyword(line, "msgstr") then StrLine
    else if line[0] == '"' then Continuation
    else Junk
  }

  /** A line without the CR of a CRLF and without its indentation. */
  function Trimmed(raw: text): text {
    Strip(if raw != [] && raw[|raw| - 1] == '\r' then raw[..|raw| - 1] else raw)
  }

  /** The lines of a text; one that ends in a newline has an empty last line. */
  function RawLines(t: text): (lines: seq<text>) {
    var e := Find(t, '\n');
    if e == |t| then [t] else [t[..e]] + RawLines(t[e + 1..])
  }

  const BOM: text := [0xEF as char, 0xBB as char, 0xBF as char]

  function SkipBom(t: text): text {
    if BOM <= t then t[3..] else t
  }

  // ---- cutting a file into entries ----

  datatype Pending = Pending(ctxt: text, id: text, str: text, hasCtxt: bool, hasStr: bool, fuzzy: bool, bad: bool)

  const BLANK := Pending([], [], [], false, false, false, false)

  datatype Field = NoField | Ctxt | Id | Str

  datatype Scan = Scan(p: Pending, cur: Field, pendingFuzzy: bool)

  const START := Scan(BLANK, NoField, false)

  predicate EndsEntry(sc: Scan, k: LineKind) {
    k == Break || k == CtxtLine || (k == IdLine && sc.cur == Str)
  }

  /** After an entry has been handed on. */
  function Cleared(sc: Scan): Scan { Scan(BLANK, NoField, sc.pendingFuzzy) }

  /** A new entry adopts the flags that came before it. */
  function Begin(sc: Scan): Scan {
    sc.(p := sc.p.(fuzzy := sc.pendingFuzzy), pendingFuzzy := false)
  }

  function AppendTo(p: Pending, f: Field, chars: text): Pending {
    match f
    case NoField => p
    case Ctxt => p.(ctxt := p.ctxt + chars)
    case Id => p.(id := p.id + chars)
    case Str => p.(str := p.str + chars)
  }

  function ReadInto(sc: Scan, f: Field, line: text): Scan {
    var q := QuotedIn(line);
    var p := AppendTo(sc.p, f, q.chars);
    if q.ok then sc.(p := p, cur := f) else sc.(p := p.(bad := true), cur := NoField)
  }

  /** What a line adds to the entry being read; `begins` when it starts one. */
  function Take(sc: Scan, k: LineKind, line: text, begins: bool): Scan {
    match k
    case Break => sc
    case Comment(fuzzy) => if fuzzy then sc.(pendingFuzzy := true) else sc
    case CtxtLine =>
      var b := Begin(sc);
      ReadInto(b.(p := b.p.(hasCtxt := true)), Ctxt, line)
    case Plural => sc.(p := sc.p.(bad := true), cur := NoField)
    case IdLine => ReadInto(if begins then Begin(sc) else sc, Id, line)
    case StrLine => ReadInto(sc.(p := sc.p.(hasStr := true)), Str, line)
    case Continuation =>
      if sc.cur == NoField then sc.(p := sc.p.(bad := true)) else ReadInto(sc, sc.cur, line)
    case Junk => sc.(p := sc.p.(bad := true))
  }

  function NextScan(sc: Scan, raw: text): Scan {
    var line := Trimmed(raw);
    var k := Classify(line);
    if EndsEntry(sc, k) then Take(Cleared(sc), k, line, true) else Take(sc, k, line, false)
  }

  /** The entries of the lines, the one under way included. */
  function Entries(sc: Scan, lines: seq<text>): seq<Pending>
    decreases |lines|
  {
    if lines == [] then [sc.p]
    else
      (if EndsEntry(sc, Classify(Trimmed(lines[0]))) then [sc.p] else [])
      + Entries(NextScan(sc, lines[0]), lines[1..])
  }

  function EntriesOf(t: text): seq<Pending> {
    Entries(START, RawLines(SkipBom(t)))
  }

  // ---- judging an entry ----

  const DIAG: text := "diag/"
  const TOKEN: text := "token/"
  const LABEL: text := "label/"

  /** Whether unreviewed entries are wanted, and the English of every diagnostic. */
  datatype Config = Config(honourFuzzy: bool, english: map<text, text>)

  datatype Verdict = Loaded | Fuzzy | Untranslated | Unknown | Malformed

  function Judge(p: Pending, cfg: Config): Verdict {
    if p.bad || !p.hasStr then Malformed
    else if !(DIAG <= p.ctxt || TOKEN <= p.ctxt || LABEL <= p.ctxt) then Unknown
    else if DIAG <= p.ctxt && p.ctxt[|DIAG|..] !in cfg.english then Unknown
    else if p.str == [] then Untranslated
    else if p.fuzzy && !cfg.honourFuzzy then Fuzzy
    else if !Utf8.Valid(Octets(p.str)) then Malformed
    else if DIAG <= p.ctxt && DigitsUsed(p.str) != DigitsUsed(cfg.english[p.ctxt[|DIAG|..]]) then Malformed
    else Loaded
  }

  /** gettext's header: the first entry with an empty msgid and no msgctxt. */
  predicate IsStray(p: Pending) { !p.hasCtxt && p.hasStr }
  predicate IsHeader(p: Pending) { IsStray(p) && p.id == [] }

  datatype Fatal = NoFatal | BadCharset(charset: text) | NewerAbi(abi: nat)

  const CATALOG_ABI := 1

  function CharsetVerdict(contentType: text): Fatal {
    match After(contentType, "charset=")
    case NoTail => NoFatal
    case Tail(s) =>
      var charset := Lower(TrimEnd(s));
      if charset in ["utf-8", "utf8", "ascii", "us-ascii"] then NoFatal else BadCharset(charset)
  }

  function HeaderVerdict(h: text): Fatal {
    var c := CharsetVerdict(HeaderField(h, "Content-Type:"));
    var abi := Number(HeaderField(h, "X-Plang-Catalog-ABI:"), 0);
    if c != NoFatal then c
    else if abi > CATALOG_ABI then NewerAbi(if abi > UINT64_MAX then UINT64_MAX else abi)
    else NoFatal
  }

  // ---- the reader: one pass over the lines ----

  datatype Report =
    Report(loaded: nat, fuzzy: nat, untranslated: nat, unknown: nat, malformed: nat, fatal: Fatal)

  const NOTHING := Report(0, 0, 0, 0, 0, NoFatal)

  /** What the entries so far amount to. */
  datatype Tally = Tally(sawHeader: bool, built: map<text, text>, r: Report)

  datatype Reader = Reader(scan: Scan, t: Tally)

  function Count(r: Report, v: Verdict): Report {
    match v
    case Loaded => r.(loaded := r.loaded + 1)
    case Fuzzy => r.(fuzzy := r.fuzzy + 1)
    case Untranslated => r.(untranslated := r.untranslated + 1)
    case Unknown => r.(unknown := r.unknown + 1)
    case Malformed => r.(malformed := r.malformed + 1)
  }

  function Settle(t: Tally, p: Pending, cfg: Config): Tally {
    if !p.hasCtxt then
      if !p.hasStr then t
      else if p.id != [] || t.sawHeader then t.(r := Count(t.r, Unknown))
      else t.(sawHeader := true, r := t.r.(fatal := HeaderVerdict(p.str)))
    else
      var v := Judge(p, cfg);
      Tally(t.sawHeader, if v == Loaded then t.built[p.ctxt := p.str] else t.built, Count(t.r, v))
  }

  function Flush(s: Reader, cfg: Config): Reader {
    Reader(Cleared(s.scan), Settle(s.t, s.scan.p, cfg))
  }

  predicate Refused(t: Tally) { t.r.fatal != NoFatal }

  function StepLine(s: Reader, raw: text, cfg: Config): Reader {
    var line := Trimmed(raw);
    var k := Classify(line);
    if EndsEntry(s.scan, k) then
      var f := Flush(s, cfg);
      if Refused(f.t) then f else f.(scan := Take(f.scan, k, line, true))
    else s.(scan := Take(s.scan, k, line, false))
  }

  function ReadLines(s: Reader, lines: seq<text>, cfg: Config): Reader
    decreases |lines|
  {
    if Refused(s.t) then s
    else if lines == [] then Flush(s, cfg)
    else ReadLines(StepLine(s, lines[0], cfg), lines[1..], cfg)
  }

  datatype Catalog = Catalog(r: Report, entries: map<text, text>)

  /** Reads a text into the catalog: nothing changes when the file is refused. */
  function Load(entries: map<text, text>, t: text, merge: bool, cfg: Config): Catalog {
    var base := if merge then entries else map[];
    var s := ReadLines(Reader(START, Tally(false, base, NOTHING)), RawLines(SkipBom(t)), cfg);
    Catalog(s.t.r, if Refused(s.t) then entries else s.t.built)
  }
}

/** What a load does, over every text: the one-pass reader comes to the same as
  * cutting the file into entries first, and only good entries get in. */
module CatalogTheorems {
  import opened PoText
  import opened CatalogModel
  import Utf8

  // ---- one pass is two phases ----

  function SettleAll(t: Tally, log: seq<Pending>, cfg: Config): Tally
    decreases |log|
  {
    if log == [] || Refused(t) then t else SettleAll(Settle(t, log[0], cfg), log[1..], cfg)
  }

  lemma {:induction false} OnePass(s: Reader, lines: seq<text>, cfg: Config)
    ensures ReadLines(s, lines, cfg).t == SettleAll(s.t, Entries(s.scan, lines), cfg)
    decreases |lines|
  {
    hide Settle, Take, Classify, Trimmed;
    var log := Entries(s.scan, lines);
    if Refused(s.t) {
    } else if lines == [] {
      assert log[1..] == [];
    } else {
      var next := StepLine(s, lines[0], cfg);
      OnePass(next, lines[1..], cfg);
      if EndsEntry(s.scan, Classify(Trimmed(lines[0]))) {
        assert log[1..] == Entries(NextScan(s.scan, lines[0]), lines[1..]);
      } else {
        assert log == Entries(NextScan(s.scan, lines[0]), lines[1..]);
      }
    }
  }

  // ---- what judging a list of entries comes to ----

  predicate Judged(p: Pending, v: Verdict, cfg: Config) { p.hasCtxt && Judge(p, cfg) == v }

  function CountOf(log: seq<Pending>, v: Verdict, cfg: Config): nat {
    if log == [] then 0 else (if Judged(log[0], v, cfg) then 1 else 0) + CountOf(log[1..], v, cfg)
  }

  function Strays(log: seq<Pending>): nat {
    if log == [] then 0 else (if IsStray(log[0]) then 1 else 0) + Strays(log[1..])
  }

  /** The index of the header, or the length. */
  function HeaderIndex(log: seq<Pending>): (i: nat)
    ensures i <= |log|
    ensures i < |log| ==> IsHeader(log[i])
    ensures forall j | 0 <= j < i :: !IsHeader(log[j])
  {
    if log == [] || IsHeader(log[0]) then 0 else 1 + HeaderIndex(log[1..])
  }

  predicate HasHeader(log: seq<Pending>) { HeaderIndex(log) < |log| }

  function FatalOf(log: seq<Pending>): Fatal {
    if HasHeader(log) then HeaderVerdict(log[HeaderIndex(log)].str) else NoFatal
  }

  /** The later entry for a key wins. */
  function Overlay(base: map<text, text>, log: seq<Pending>, cfg: Config): map<text, text>
    decreases |log|
  {
    if log == [] then base
    else if Judged(log[0], Loaded, cfg) then Overlay(base[log[0].ctxt := log[0].str], log[1..], cfg)
    else Overlay(base, log[1..], cfg)
  }

  /** An entry with no msgctxt that is not the header counts as unknown. */
  function StrayCount(log: seq<Pending>, sawHeader: bool): nat {
    if log == [] then 0
    else if IsHeader(log[0]) && !sawHeader then StrayCount(log[1..], true)
    else (if IsStray(log[0]) then 1 else 0) + StrayCount(log[1..], sawHeader)
  }

  lemma {:induction false} StrayCountIs(log: seq<Pending>, sawHeader: bool)
    ensures StrayCount(log, sawHeader) == Strays(log) - (if HasHeader(log) && !sawHeader then 1 else 0)
  {
    if log != [] {
      StrayCountIs(log[1..], sawHeader || IsHeader(log[0]));
    }
  }

  function Reported(r: Report, log: seq<Pending>, sawHeader: bool, cfg: Config): Report {
    Report(r.loaded + CountOf(log, Loaded, cfg), r.fuzzy + CountOf(log, Fuzzy, cfg),
           r.untranslated + CountOf(log, Untranslated, cfg),
           r.unknown + CountOf(log, Unknown, cfg) + StrayCount(log, sawHeader),
           r.malformed + CountOf(log, Malformed, cfg), r.fatal)
  }

  /** The header alone decides whether the file is refused. */
  lemma {:induction false} SettledFatal(t: Tally, log: seq<Pending>, cfg: Config)
    requires !Refused(t)
    ensures SettleAll(t, log, cfg).r.fatal == if t.sawHeader then NoFatal else FatalOf(log)
    decreases |log|
  {
    hide HeaderVerdict, Judge;
    if log != [] {
      var next := Settle(t, log[0], cfg);
      if !Refused(next) {
        SettledFatal(next, log[1..], cfg);
      }
    }
  }

  lemma {:induction false} Settled(t: Tally, log: seq<Pending>, cfg: Config)
    requires !Refused(t) && !Refused(SettleAll(t, log, cfg))
    ensures SettleAll(t, log, cfg).built == Overlay(t.built, log, cfg)
    ensures SettleAll(t, log, cfg).r == Reported(t.r, log, t.sawHeader, cfg)
    decreases |log|
  {
    hide HeaderVerdict, Judge;
    if log != [] {
      Settled(Settle(t, log[0], cfg), log[1..], cfg);
    }
  }

  // ---- the theorems ----

  /** A file is refused exactly when its header asks for it, and then the catalog
    * is what it was. */
  lemma {:induction false} RefusedIff(entries: map<text, text>, t: text, merge: bool, cfg: Config)
    ensures Load(entries, t, merge, cfg).r.fatal == FatalOf(EntriesOf(t))
    ensures FatalOf(EntriesOf(t)) != NoFatal ==> Load(entries, t, merge, cfg).entries == entries
  {
    hide ReadLines, SettleAll, Entries, FatalOf;
    var tally := Tally(false, if merge then entries else map[], NOTHING);
    OnePass(Reader(START, tally), RawLines(SkipBom(t)), cfg);
    SettledFatal(tally, EntriesOf(t), cfg);
  }

  /** Any other file is laid over what was there, entry by entry, and every entry
    * with a msgctxt raises the one counter of its verdict. */
  lemma {:induction false} LoadIsOverlay(entries: map<text, text>, t: text, merge: bool, cfg: Config)
    requires FatalOf(EntriesOf(t)) == NoFatal
    ensures var (log, c) := (EntriesOf(t), Load(entries, t, merge, cfg));
            && c.entries == Overlay(if merge then entries else map[], log, cfg)
            && c.r.loaded == CountOf(log, Loaded, cfg)
            && c.r.fuzzy == CountOf(log, Fuzzy, cfg)
            && c.r.untranslated == CountOf(log, Untranslated, cfg)
            && c.r.malformed == CountOf(log, Malformed, cfg)
            && c.r.unknown == CountOf(log, Unknown, cfg) + Strays(log) - (if HasHeader(log) then 1 else 0)
  {
    hide ReadLines, SettleAll, Entries, FatalOf, Overlay, CountOf, Strays, StrayCount, HasHeader;
    var (base, log) := (if merge then entries else map[], EntriesOf(t));
    var tally := Tally(false, base, NOTHING);
    OnePass(Reader(START, tally), RawLines(SkipBom(t)), cfg);
    SettledFatal(tally, log, cfg);
    Settled(tally, log, cfg);
    StrayCountIs(log, false);
  }

  function Keyed(log: seq<Pending>): nat {
    if log == [] then 0 else (if log[0].hasCtxt then 1 else 0) + Keyed(log[1..])
  }

  /** Nothing is counted twice or not at all. */
  lemma {:induction false} EveryEntryCountedOnce(log: seq<Pending>, cfg: Config)
    ensures CountOf(log, Loaded, cfg) + CountOf(log, Fuzzy, cfg) + CountOf(log, Untranslated, cfg)
            + CountOf(log, Unknown, cfg) + CountOf(log, Malformed, cfg) == Keyed(log)
  {
    hide Judge;
    if log != [] {
      EveryEntryCountedOnce(log[1..], cfg);
    }
  }

  // ---- what gets in ----

  /** What the catalog promises of a message in use. */
  ghost predicate Usable(k: text, v: text, cfg: Config) {
    && v != [] && Clean(v)
    && (exists scalars :: Utf8.EncodeAll(scalars) == Octets(v))
    && (DIAG <= k || TOKEN <= k || LABEL <= k)
    && (DIAG <= k ==>
          && k[|DIAG|..] in cfg.english
          && (forall d :: Uses(v, d) <==> Uses(cfg.english[k[|DIAG|..]], d)))
  }

  lemma {:induction false} LoadedIsUsable(p: Pending, cfg: Config)
    requires Judge(p, cfg) == Loaded && Clean(p.str)
    ensures Usable(p.ctxt, p.str, cfg) && (p.fuzzy ==> cfg.honourFuzzy)
  {
    hide Utf8.Valid, Clean, DigitsUsed, Uses, Octets;
    Utf8.ValidIffEncoding(Octets(p.str));
    if DIAG <= p.ctxt {
      var english := cfg.english[p.ctxt[|DIAG|..]];
      forall d: char
        ensures Uses(p.str, d) <==> Uses(english, d)
      {
        DigitsUsedAre(p.str, d);
        DigitsUsedAre(english, d);
      }
    }
  }

  lemma CleanJoins(a: text, b: text)
    requires Clean(a) && Clean(b)
    ensures Clean(a + b)
  {
  }

  lemma {:induction false} NextScanClean(sc: Scan, raw: text)
    requires Clean(sc.p.str)
    ensures Clean(NextScan(sc, raw).p.str)
  {
    hide Clean, Classify, Trimmed, QuotedIn;
    assert Clean([]) by {
      QuotedBodyClean([]);
    }
    var line := Trimmed(raw);
    var q := QuotedIn(line).chars;
    QuotedInClean(line);
    CleanJoins(sc.p.str, q);
    CleanJoins([], q);
    assert [] + q == q;
  }

  lemma {:induction false} EntriesClean(sc: Scan, lines: seq<text>)
    requires Clean(sc.p.str)
    ensures forall p <- Entries(sc, lines) :: Clean(p.str)
    decreases |lines|
  {
    hide Clean, NextScan;
    if lines != [] {
      NextScanClean(sc, lines[0]);
      EntriesClean(NextScan(sc, lines[0]), lines[1..]);
    }
  }

  /** Some entry put `v` under `k`, and it was not a guess nobody asked for. */
  ghost predicate From(log: seq<Pending>, k: text, v: text, cfg: Config) {
    exists p <- log :: p.hasCtxt && p.ctxt == k && p.str == v && (p.fuzzy ==> cfg.honourFuzzy)
  }

  lemma {:induction false} OverlayUsable(base: map<text, text>, log: seq<Pending>, k: text, cfg: Config)
    requires forall p <- log :: Clean(p.str)
    requires k in Overlay(base, log, cfg)
    ensures var v := Overlay(base, log, cfg)[k];
            || (k in base && base[k] == v)
            || (Usable(k, v, cfg) && From(log, k, v, cfg))
    decreases |log|
  {
    hide Judge, Clean, Usable;
    if log != [] {
      var p := log[0];
      var next := if Judged(p, Loaded, cfg) then base[p.ctxt := p.str] else base;
      OverlayUsable(next, log[1..], k, cfg);
      if Judged(p, Loaded, cfg) {
        LoadedIsUsable(p, cfg);
      }
      assert forall q <- log[1..] :: q in log;
    }
  }

  /** Every message in use after a load was there before or is fit to be shown. */
  lemma {:induction false} LoadedMessagesUsable(entries: map<text, text>, t: text, merge: bool, cfg: Config, k: text)
    requires FatalOf(EntriesOf(t)) == NoFatal && k in Load(entries, t, merge, cfg).entries
    ensures var v := Load(entries, t, merge, cfg).entries[k];
            || (merge && k in entries && entries[k] == v)
            || (Usable(k, v, cfg) && From(EntriesOf(t), k, v, cfg))
  {
    hide Load, Overlay, Usable, From, FatalOf;
    LoadIsOverlay(entries, t, merge, cfg);
    EntriesClean(START, RawLines(SkipBom(t)));
    OverlayUsable(if merge then entries else map[], EntriesOf(t), k, cfg);
  }

  lemma {:induction false} OverlayMerges(base: map<text, text>, more: map<text, text>, log: seq<Pending>, cfg: Config)
    ensures Overlay(base + more, log, cfg) == base + Overlay(more, log, cfg)
    decreases |log|
  {
    hide Judge;
    if log != [] {
      var p := log[0];
      OverlayMerges(base, if Judged(p, Loaded, cfg) then more[p.ctxt := p.str] else more, log[1..], cfg);
      assert (base + more)[p.ctxt := p.str] == base + more[p.ctxt := p.str];
    }
  }

  /** A region over its language: its own messages win, the rest stay. */
  lemma {:induction false} MergeIsUnion(entries: map<text, text>, t: text, cfg: Config)
    requires FatalOf(EntriesOf(t)) == NoFatal
    ensures Load(entries, t, true, cfg).entries == entries + Load(map[], t, false, cfg).entries
  {
    hide Load, Overlay, FatalOf;
    LoadIsOverlay(entries, t, true, cfg);
    LoadIsOverlay(map[], t, false, cfg);
    OverlayMerges(entries, map[], EntriesOf(t), cfg);
    assert entries + map[] == entries;
  }
}

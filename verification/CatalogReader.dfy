/** The reader as it runs: fields updated line by line, and the catalog changed
  * only once the whole file has been accepted. */
module CatalogReader {
  import opened PoText
  import opened CatalogModel
  import Utf8

  class PoReader {
    var p: Pending
    var cur: Field
    var pendingFuzzy: bool
    var sawHeader: bool
    var built: map<text, text>
    var r: Report
    const cfg: Config

    ghost function State(): Reader
      reads this
    {
      Reader(Scan(p, cur, pendingFuzzy), Tally(sawHeader, built, r))
    }

    constructor (base: map<text, text>, config: Config)
      ensures State() == Reader(START, Tally(false, base, NOTHING)) && cfg == config
    {
      p, cur, pendingFuzzy, sawHeader, built, r, cfg := BLANK, NoField, false, false, base, NOTHING, config;
    }

    /** Reads the header; a declared charset or ABI can refuse the file. */
    method ReadHeader() returns (fatal: Fatal)
      ensures fatal == HeaderVerdict(p.str)
    {
      var contentType := FindField(p.str, "Content-Type:");
      match After(contentType, "charset=") {
        case NoTail =>
        case Tail(s) =>
          var charset := Lower(TrimEnd(s));
          if charset != "utf-8" && charset != "utf8" && charset != "ascii" && charset != "us-ascii" {
            return BadCharset(charset);
          }
      }
      var field := FindField(p.str, "X-Plang-Catalog-ABI:");
      var abi := SaturatedNumber(field);
      return if abi > CATALOG_ABI then NewerAbi(abi) else NoFatal;
    }

    method Judgement() returns (v: Verdict)
      ensures v == Judge(p, cfg)
    {
      hide Utf8.Valid, Utf8.EncodeAll, DigitsUsed;
      if p.bad || !p.hasStr {
        return Malformed;
      }
      var isDiag := DIAG <= p.ctxt;
      if !isDiag && !(TOKEN <= p.ctxt) && !(LABEL <= p.ctxt) {
        return Unknown;
      }
      if isDiag && p.ctxt[|DIAG|..] !in cfg.english {
        return Unknown;
      }
      if p.str == [] {
        return Untranslated;
      }
      if p.fuzzy && !cfg.honourFuzzy {
        return Fuzzy;
      }
      var ok := Utf8.ValidUtf8(Octets(p.str));
      Utf8.ValidIffEncoding(Octets(p.str));
      if !ok {
        return Malformed;
      }
      if isDiag {
        var mine := PlaceholderMask(p.str);
        var english := PlaceholderMask(cfg.english[p.ctxt[|DIAG|..]]);
        if mine != english {
          return Malformed;
        }
      }
      return Loaded;
    }

    method FlushEntry() returns (ok: bool)
      requires !Refused(State().t)
      modifies this
      ensures State() == Flush(old(State()), cfg) && ok == !Refused(State().t)
    {
      hide Judge, HeaderVerdict, Clean;
      if !p.hasCtxt {
        if p.hasStr {
          if p.id != [] || sawHeader {
            r := Count(r, Unknown);
          } else {
            sawHeader := true;
            var fatal := ReadHeader();
            r := r.(fatal := fatal);
          }
        }
      } else {
        var v := Judgement();
        if v == Loaded {
          built := built[p.ctxt := p.str];
        }
        r := Count(r, v);
      }
      p, cur := BLANK, NoField;
      ok := r.fatal == NoFatal;
    }

    method BeginEntry()
      modifies this
      ensures State() == old(State()).(scan := Begin(old(State()).scan))
    {
      p := p.(fuzzy := pendingFuzzy);
      pendingFuzzy := false;
    }

    /** Appends the string on the line to a field, or marks the entry bad. */
    method ReadField(f: Field, line: text)
      modifies this
      ensures State() == old(State()).(scan := ReadInto(old(State()).scan, f, line))
    {
      hide QuotedIn;
      var ok, got := AppendQuoted(line, match f
        case NoField => []
        case Ctxt => p.ctxt
        case Id => p.id
        case Str => p.str);
      match f {
        case NoField =>
        case Ctxt => p := p.(ctxt := got);
        case Id => p := p.(id := got);
        case Str => p := p.(str := got);
      }
      cur := f;
      if !ok {
        p := p.(bad := true);
        cur := NoField;
      }
    }

    method ReadLine(raw: text) returns (ok: bool)
      requires !Refused(State().t)
      modifies this
      ensures State() == StepLine(old(State()), raw, cfg) && ok == !Refused(State().t)
    {
      hide Settle, ReadInto, Strip, After, QuotedIn;
      ok := true;
      var line := Trimmed(raw);
      match Classify(line) {
        case Break =>
          ok := FlushEntry();
        case Comment(fuzzy) =>
          if fuzzy {
            pendingFuzzy := true;
          }
        case CtxtLine =>
          ok := FlushEntry();
          if ok {
            BeginEntry();
            p := p.(hasCtxt := true);
            ReadField(Ctxt, line);
          }
        case Plural =>
          p, cur := p.(bad := true), NoField;
        case IdLine =>
          if cur == Str {
            ok := FlushEntry();
            if ok {
              BeginEntry();
            }
          }
          if ok {
            ReadField(Id, line);
          }
        case StrLine =>
          p := p.(hasStr := true);
          ReadField(Str, line);
        case Continuation =>
          if cur == NoField {
            p := p.(bad := true);
          } else {
            ReadField(cur, line);
          }
        case Junk =>
          p := p.(bad := true);
      }
    }
  }

  /** A line cut off the front of what is left. */
  lemma {:induction false} CutLine(s: Reader, t: text, cfg: Config)
    requires !Refused(s.t)
    ensures var e := Find(t, '\n');
            ReadLines(s, RawLines(t), cfg) ==
            if e == |t| then ReadLines(StepLine(s, t, cfg), [], cfg)
            else ReadLines(StepLine(s, t[..e], cfg), RawLines(t[e + 1..]), cfg)
  {
    hide StepLine, Find;
    var e := Find(t, '\n');
    if e < |t| {
      assert ([t[..e]] + RawLines(t[e + 1..]))[1..] == RawLines(t[e + 1..]);
    } else {
      assert [t][1..] == [];
    }
  }

  class MessageCatalog {
    var entries: map<text, text>
    var honourFuzzy: bool
    const english: map<text, text>

    constructor (builtins: map<text, text>)
      ensures entries == map[] && !honourFuzzy && english == builtins
    {
      entries, honourFuzzy, english := map[], false, builtins;
    }

    method LoadText(t: text, merge: bool) returns (r: Report)
      modifies this
      ensures honourFuzzy == old(honourFuzzy)
      ensures Catalog(r, entries) == Load(old(entries), t, merge, Config(honourFuzzy, english))
    {
      hide StepLine, Flush, Find, RawLines;
      var cfg := Config(honourFuzzy, english);
      var reader := new PoReader(if merge then entries else map[], cfg);
      ghost var start := reader.State();
      var rest := SkipBom(t);
      ghost var end := ReadLines(start, RawLines(rest), cfg);
      var more := true;
      while more
        invariant !Refused(reader.State().t) && reader.cfg == cfg && fresh(reader)
        invariant honourFuzzy == old(honourFuzzy) && entries == old(entries)
        invariant end == ReadLines(reader.State(), if more then RawLines(rest) else [], cfg)
        decreases more, |rest|
      {
        CutLine(reader.State(), rest, cfg);
        var e := Find(rest, '\n');
        var raw := if e == |rest| then rest else rest[..e];
        more, rest := e < |rest|, if e == |rest| then [] else rest[e + 1..];
        var ok := reader.ReadLine(raw);
        if !ok {
          return reader.r;
        }
      }
      var ok := reader.FlushEntry();
      if !ok {
        return reader.r;
      }
      entries := reader.built;
      return reader.r;
    }
  }
}

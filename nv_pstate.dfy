/** nv_pstate: parse the options into a `config_t`, derive the debugfs path from the card
    number, and write the pstate as lowercase hex to that file. The file system is not modelled:
    whether open() succeeds and what write() returns are inputs, and the effects the program has
    on the file (the path it opens, the bytes it hands to write(), whether it closes the
    descriptor) are outputs. */
module NvPstate {
  import opened Wrappers
  import opened Format
  import opened Options

  /** The `config_t` record main keeps on its stack and get_cmdline_opts fills in. */
  class Config {
    var card: Int32
    var verbose: Int32
    var pstate: Int32
    /** The NUL-terminated contents of `char path[PATH_SZ]`. */
    var path: string

    /** The record as main zeroes it before setting any field. */
    constructor ()
      ensures Value() == ConfigValue(0, 0, 0, "")
    {
      card, verbose, pstate, path := 0, 0, 0, "";
    }

    function Value(): ConfigValue
      reads this
    {
      ConfigValue(card, verbose, pstate, path)
    }
  }

  /** What the outside world does when write_pstate talks to it. */
  datatype Io = Io(openSucceeds: bool, writeReturns: int)

  /** What the program did to the pstate file: the path it tried to open, the bytes it passed
      to write() (only once open succeeded), and whether it closed the descriptor. */
  datatype Effects = Effects(openPath: Option<string>, written: Option<string>, closed: bool)

  const NoEffects: Effects := Effects(None, None, false)

  /** The outcome write_pstate promises for the configuration `c`: a negative pstate is refused
      before anything is opened; otherwise the path is opened, and if that succeeds the payload
      (hex digits, the NUL printed by "%c", snprintf's terminator) is written, the descriptor is
      closed, and the result is 0 exactly when write() reported the whole payload; any failure
      gives -1. */
  predicate WriteOutcome(c: ConfigValue, io: Io, retv: int, effects: Effects) {
    if c.pstate < 0 then
      retv == -1 && effects == NoEffects
    else
      var payload := PstatePayload(c.pstate);
      && effects.openPath == Some(c.path)
      && (retv == 0 || retv == -1)
      && if io.openSucceeds then
           && effects.written == Some(payload)
           && effects.closed
           && (retv == 0 <==> io.writeReturns >= |payload|)
         else
           retv == -1 && effects.written == None && !effects.closed
  }

  /** get_cmdline_opts: walk the options getopt_long delivers, store each value in its field,
      and return at once with 1 on help or version and with -1 on an unknown option or a
      refused value (after storing it); 0 when the options run out. */
  method GetCmdlineOpts(opts: seq<Opt>, cfg: Config) returns (optRv: int)
    modifies cfg
    ensures Parsed(optRv, cfg.Value()) == Parse(opts, old(cfg.Value()))
  {
    ghost var c0 := cfg.Value();
    optRv := 0;
    var i := 0;
    while i < |opts|
      invariant 0 <= i <= FirstStop(opts)
      invariant optRv == 0
      invariant cfg.Value() == Settle(opts[..i], c0)
      decreases |opts| - i
    {
      ghost var before := cfg.Value();
      match opts[i] {
        case Card(a) =>
          var tmpl := a.value;
          if a.errnoSet || tmpl < 0 || tmpl > MAX_CARD_NR {
            optRv := -1;
          }
          cfg.card := ToCInt(tmpl);
        case Pstate(a) =>
          var tmpl := a.value;
          if a.errnoSet || tmpl < 0 || tmpl > MAX_PSTATE {
            optRv := -1;
          }
          cfg.pstate := ToCInt(tmpl);
        case Verbose =>
          cfg.verbose := 1;
        case Help =>
          optRv := 1;
        case Version =>
          optRv := 1;
        case Unknown =>
          optRv := -1;
      }
      SettleOne(opts[i], before);
      assert opts[..i + 1] == opts[..i] + [opts[i]];
      SettleSnoc(opts[..i], opts[i], c0);
      if optRv != 0 {
        assert i == FirstStop(opts);
        return;
      }
      i := i + 1;
    }
    assert opts[..i] == opts;
  }

  /** snprintf(buf, buf.Length, ...) for the fully formatted text `out`: stores as much of it as
      fits before a terminating NUL, leaves the bytes after that NUL alone, and returns the length
      of the whole text. */
  method Snprintf(buf: array<char>, out: string) returns (n: int)
    requires buf.Length >= 1
    modifies buf
    ensures n == |out|
    ensures var k := StoredLength(|out|, buf.Length);
      buf[..k] == out[..k] && buf[k] == NUL && buf[k + 1..] == old(buf[k + 1..])
  {
    var k := StoredLength(|out|, buf.Length);
    forall i | 0 <= i < k {
      buf[i] := out[i];
    }
    buf[k] := NUL;
    n := |out|;
  }

  /** write_pstate. The caller must keep the pstate below 16^6: a larger one no longer fits
      `str_pstate`, and the `slen + 1` bytes passed to write() would run past its end. */
  method WritePstate(cfg: Config, io: Io) returns (retv: int, effects: Effects)
    requires cfg.pstate < 0x100_0000
    ensures WriteOutcome(cfg.Value(), io, retv, effects)
  {
    retv := 0;
    if cfg.pstate < 0 {
      return -1, NoEffects;
    }
    var strPstate := new char[STR_PSTATE_SZ];
    var digits := LowerHex(cfg.pstate);
    PstateHexInBuffer(cfg.pstate);
    var slen := Snprintf(strPstate, digits + [NUL]);
    // The "%x%c" output is never empty, so the `slen < 1` failure branch cannot be taken.
    assert slen >= 1;

    if !io.openSucceeds {
      return -1, Effects(Some(cfg.path), None, false);
    }
    slen := slen + 1;
    var payload := strPstate[..slen];
    assert StoredLength(|digits| + 1, STR_PSTATE_SZ) == slen - 1;
    assert payload == strPstate[..slen - 1] + [strPstate[slen - 1]];
    assert payload == PstatePayload(cfg.pstate);
    var wlen := io.writeReturns;
    if wlen < slen {
      retv := -1;
    }
    effects := Effects(Some(cfg.path), Some(payload), true);
  }

  /** main: set up the configuration, parse the options, and write the pstate when parsing
      went through and a card was given. The result is the parse result (1 for help or version,
      -1 for an error), 0 when no card was given, or write_pstate's result; the pstate file is
      touched only in the last case, at the path derived from the card. */
  method Run(opts: seq<Opt>, io: Io) returns (retv: int, effects: Effects)
    ensures var p := Parse(opts, Initial);
      && (p.rv != 0 ==> retv == p.rv && effects == NoEffects)
      && (p.rv == 0 && p.cfg.card < 0 ==> retv == 0 && effects == NoEffects)
      && (p.rv == 0 && p.cfg.card >= 0 ==>
            WriteOutcome(p.cfg.(path := CardPath(p.cfg.card)), io, retv, effects))
      && (effects.openPath.Some? <==> p.rv == 0 && p.cfg.card >= 0 && p.cfg.pstate >= 0)
  {
    var cfg := new Config();
    cfg.card := -1;
    cfg.pstate := -1;
    assert cfg.Value() == Initial;

    retv := GetCmdlineOpts(opts, cfg);
    effects := NoEffects;
    if retv != 0 {
      // exit_err and exit only print; the parse result is returned.
      return;
    }
    ParsedFromInitial(opts);
    ghost var parsed := cfg.Value();

    if cfg.card >= 0 {
      var text := CardPath(cfg.card);
      CardPathFits(cfg.card);
      cfg.path := text[..StoredLength(|text|, PATH_MAX)];
      assert cfg.path == text;
      assert cfg.Value() == parsed.(path := text);
      retv, effects := WritePstate(cfg, io);
      return;
    }
    // exit_err: the error message is printed, yet retv is still 0 and is returned.
  }

  // ---------------------------------------------------------------------------------------
  // Worked cases of main

  /** `-c 3 -s 15` parses with card 3 and pstate 15; with Run's postcondition this gives the
      path and payload RunCardThreePstateFifteen states. */
  lemma CardThreePstateFifteen()
    ensures var opts := [Card(Conversion(3, false)), Pstate(Conversion(15, false))];
      && Parse(opts, Initial) == Parsed(0, ConfigValue(3, 0, 15, ""))
      && CardPath(3) == "/sys/kernel/debug/dri/3/pstate"
      && PstatePayload(15) == ['f', NUL, NUL]
  {
    var opts := [Card(Conversion(3, false)), Pstate(Conversion(15, false))];
    assert FirstStop(opts[1..]) == 1 + FirstStop(opts[2..]);
    assert Consumed(opts) == opts;
    SettleSnoc([opts[0]], opts[1], Initial);
    assert [opts[0]] + [opts[1]] == opts;
    SettleOne(opts[0], Initial);
    SettleOne(opts[1], Settle([opts[0]], Initial));
    assert Decimal(3) == "3";
    assert LowerHex(15) == "f";
  }

  /** `-h` (or `-v`) first: parsing stops with 1 whatever follows, even a refused card number;
      with Run's postcondition, main then returns 1 and leaves the file alone. */
  lemma HelpFirst(rest: seq<Opt>, help: Opt)
    requires help.Help? || help.Version?
    ensures Parse([help] + rest, Initial) == Parsed(1, Initial)
  {
    assert FirstStop([help]) == 0;
    LaterOptionsIgnored([help], rest, Initial);
    assert Consumed([help]) == [help];
    SettleOne(help, Initial);
  }

  /** Only `-s 5`: parsing goes through but card stays -1; RunPstateWithoutCard shows what main
      then does. */
  lemma PstateWithoutCard()
    ensures Parse([Pstate(Conversion(5, false))], Initial) == Parsed(0, ConfigValue(-1, 0, 5, ""))
  {
    var opts := [Pstate(Conversion(5, false))];
    assert FirstStop(opts) == 1 + FirstStop(opts[1..]);
    assert Consumed(opts) == opts;
    SettleOne(opts[0], Initial);
  }

  /** main on `-c 3 -s 15`: it opens "/sys/kernel/debug/dri/3/pstate"; if that succeeds it hands
      write() 'f', NUL, NUL, closes the file, and returns 0 exactly when all three bytes went
      out; if the open fails it returns -1 without writing or closing. */
  method RunCardThreePstateFifteen(io: Io) returns (retv: int, effects: Effects)
    ensures effects.openPath == Some("/sys/kernel/debug/dri/3/pstate")
    ensures io.openSucceeds ==>
      effects.written == Some(['f', NUL, NUL]) && effects.closed && (retv == 0 <==> io.writeReturns >= 3)
    ensures io.openSucceeds && retv != 0 ==> retv == -1
    ensures !io.openSucceeds ==> retv == -1 && effects.written == None && !effects.closed
  {
    CardThreePstateFifteen();
    retv, effects := Run([Card(Conversion(3, false)), Pstate(Conversion(15, false))], io);
  }

  /** main on `-s 5` alone: although it prints its missing-parameters message, it returns 0 and
      leaves the file alone, whatever the file system would have done. */
  method RunPstateWithoutCard(io: Io) returns (retv: int, effects: Effects)
    ensures retv == 0 && effects == NoEffects
  {
    PstateWithoutCard();
    retv, effects := Run([Pstate(Conversion(5, false))], io);
  }
}

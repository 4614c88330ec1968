/** What get_cmdline_opts does to a configuration, stated declaratively: the loop over the
    options stops at the first option that asks for help or the version, is unknown, or carries
    an invalid number; every option up to and including that one has taken effect, each on its
    own field, the last one to name a field winning; the three-way result says why it stopped. */
module Options {
  import opened Wrappers

  const MAX_CARD_NR: int := 255
  const MAX_PSTATE: int := 255

  const TWO_32: int := 0x1_0000_0000

  /** C `int` (32 bits) and `long` (64 bits, as on the platforms the tool targets). */
  type Int32 = x: int | -0x8000_0000 <= x < 0x8000_0000
  type Int64 = x: int | -0x8000_0000_0000_0000 <= x < 0x8000_0000_0000_0000

  /** The `(int) tmpl` cast: the long's value modulo 2^32, read as two's complement. C leaves
      the result for values outside int's range to the implementation; this is the rule GCC
      documents and applies on the Linux targets the tool is built for, not a language guarantee. */
  function ToCInt(v: Int64): (r: Int32)
    ensures (r - v) % TWO_32 == 0
    ensures -0x8000_0000 <= v < 0x8000_0000 ==> r == v
  {
    var m := v % TWO_32;
    if m < 0x8000_0000 then m else m - TWO_32
  }

  /** What strtol reports for an option argument: the long it returns, and whether it set
      errno (out of range). The end pointer is not looked at, so trailing text is accepted. */
  datatype Conversion = Conversion(value: Int64, errnoSet: bool)

  /** One result of getopt_long: `-c/--card`, `-s/--pstate` with their converted argument,
      `-V`, `-h`, `-v`, or '?' for an unknown option or a missing argument. */
  datatype Opt =
    | Card(arg: Conversion)
    | Pstate(arg: Conversion)
    | Verbose
    | Help
    | Version
    | Unknown

  /** The fields of `config_t`, as values. */
  datatype ConfigValue = ConfigValue(card: Int32, verbose: Int32, pstate: Int32, path: string)

  /** The configuration main sets up before parsing: zeroed, then card and pstate set to -1. */
  const Initial: ConfigValue := ConfigValue(-1, 0, -1, "")

  datatype Field = CardField | VerboseField | PstateField

  /** An option argument is accepted when strtol set no error and the value is in [0, max]. */
  predicate Accepted(a: Conversion, max: int) {
    !a.errnoSet && 0 <= a.value <= max
  }

  /** The options after which the loop returns at once. */
  predicate Stops(o: Opt) {
    match o
    case Card(a) => !Accepted(a, MAX_CARD_NR)
    case Pstate(a) => !Accepted(a, MAX_PSTATE)
    case Verbose => false
    case Help => true
    case Version => true
    case Unknown => true
  }

  /** Why the loop stopped at `o`: 1 (exit ok) for help and version, -1 (error) otherwise. */
  function StopCode(o: Opt): int {
    if o.Help? || o.Version? then 1 else -1
  }

  /** The value `o` stores into field `f`, if it stores one. */
  function Assigned(o: Opt, f: Field): Option<Int32> {
    match f
    case CardField => if o.Card? then Some(ToCInt(o.arg.value)) else None
    case VerboseField => if o.Verbose? then Some(1) else None
    case PstateField => if o.Pstate? then Some(ToCInt(o.arg.value)) else None
  }

  /** The index of the first option the loop stops at, or |opts| when it stops at none. */
  function FirstStop(opts: seq<Opt>): (k: nat)
    ensures k <= |opts|
    ensures forall i | 0 <= i < k :: !Stops(opts[i])
    ensures k < |opts| ==> Stops(opts[k])
  {
    if opts == [] then 0 else if Stops(opts[0]) then 0 else 1 + FirstStop(opts[1..])
  }

  /** The options that take effect: those up to and including the first stopping one. */
  function Consumed(opts: seq<Opt>): seq<Opt> {
    var k := FirstStop(opts);
    if k < |opts| then opts[..k + 1] else opts
  }

  /** The value of field `f` after the options `s`: the last value an option of `s` stores
      into it, or `d` when none does. */
  function LastAssigned(s: seq<Opt>, f: Field, d: Int32): Int32 {
    if s == [] then d
    else match Assigned(s[|s| - 1], f)
      case Some(v) => v
      case None => LastAssigned(s[..|s| - 1], f, d)
  }

  /** The configuration after the options `s` have all taken effect on `c`. */
  function Settle(s: seq<Opt>, c: ConfigValue): ConfigValue {
    ConfigValue(
      LastAssigned(s, CardField, c.card),
      LastAssigned(s, VerboseField, c.verbose),
      LastAssigned(s, PstateField, c.pstate),
      c.path)
  }

  /** get_cmdline_opts' return value: 0 continue, 1 exit ok, -1 error. */
  function Verdict(opts: seq<Opt>): int {
    var k := FirstStop(opts);
    if k < |opts| then StopCode(opts[k]) else 0
  }

  datatype Parsed = Parsed(rv: int, cfg: ConfigValue)

  /** The result of get_cmdline_opts on `opts` with the configuration `c`. */
  function Parse(opts: seq<Opt>, c: ConfigValue): Parsed {
    Parsed(Verdict(opts), Settle(Consumed(opts), c))
  }

  // ---------------------------------------------------------------------------------------
  // Last writer wins

  /** Appending an option either overrides field `f` with its own value or leaves it alone. */
  lemma LastAssignedSnoc(s: seq<Opt>, o: Opt, f: Field, d: Int32)
    ensures LastAssigned(s + [o], f, d) == (if Assigned(o, f).Some? then Assigned(o, f).value else LastAssigned(s, f, d))
  {
    assert (s + [o])[..|s|] == s;
  }

  /** A field that no option names keeps its value; otherwise its value is the one stored by
      some option, and by the last one naming it. */
  lemma {:induction false} LastAssignedSource(s: seq<Opt>, f: Field, d: Int32)
    ensures (forall i | 0 <= i < |s| :: Assigned(s[i], f).None?) ==> LastAssigned(s, f, d) == d
    ensures forall j | 0 <= j < |s| && Assigned(s[j], f).Some? && (forall i | j < i < |s| :: Assigned(s[i], f).None?) ::
              LastAssigned(s, f, d) == Assigned(s[j], f).value
    ensures (exists i | 0 <= i < |s| :: Assigned(s[i], f).Some?) ==>
              exists j | 0 <= j < |s| :: Assigned(s[j], f) == Some(LastAssigned(s, f, d))
    decreases |s|
  {
    if s != [] {
      var init, o := s[..|s| - 1], s[|s| - 1];
      assert s == init + [o];
      LastAssignedSnoc(init, o, f, d);
      LastAssignedSource(init, f, d);
      if Assigned(o, f).None? {
        forall j | 0 <= j < |s| && Assigned(s[j], f).Some? && (forall i | j < i < |s| :: Assigned(s[i], f).None?)
          ensures LastAssigned(s, f, d) == Assigned(s[j], f).value
        {
          assert j < |init| && init[j] == s[j];
          assert forall i | j < i < |init| :: init[i] == s[i];
        }
        if exists i | 0 <= i < |s| :: Assigned(s[i], f).Some? {
          var i :| 0 <= i < |s| && Assigned(s[i], f).Some?;
          assert init[i] == s[i];
          var j :| 0 <= j < |init| && Assigned(init[j], f) == Some(LastAssigned(init, f, d));
          assert s[j] == init[j];
        }
      } else {
        assert Assigned(s[|s| - 1], f) == Some(LastAssigned(s, f, d));
      }
    }
  }

  /** Settling one more option. */
  lemma SettleSnoc(s: seq<Opt>, o: Opt, c: ConfigValue)
    ensures Settle(s + [o], c) == Settle([o], Settle(s, c))
  {
    LastAssignedSnoc(s, o, CardField, c.card);
    LastAssignedSnoc(s, o, VerboseField, c.verbose);
    LastAssignedSnoc(s, o, PstateField, c.pstate);
    var t := Settle(s, c);
    LastAssignedSnoc([], o, CardField, t.card);
    LastAssignedSnoc([], o, VerboseField, t.verbose);
    LastAssignedSnoc([], o, PstateField, t.pstate);
    assert [] + [o] == [o];
  }

  /** One option on its own sets its own field and nothing else. */
  lemma SettleOne(o: Opt, c: ConfigValue)
    ensures Settle([o], c) == match o
      case Card(a) => c.(card := ToCInt(a.value))
      case Pstate(a) => c.(pstate := ToCInt(a.value))
      case Verbose => c.(verbose := 1)
      case _ => c
  {
    assert [] + [o] == [o];
    LastAssignedSnoc([], o, CardField, c.card);
    LastAssignedSnoc([], o, VerboseField, c.verbose);
    LastAssignedSnoc([], o, PstateField, c.pstate);
  }

  // ---------------------------------------------------------------------------------------
  // Properties of the option loop

  /** The result is 0 exactly when every option is handled cleanly (a `-V` or an accepted
      `-c`/`-s` value); it is 1 when the loop stopped at help or version and -1 otherwise. */
  lemma VerdictCases(opts: seq<Opt>)
    ensures Verdict(opts) == 0 <==> forall i | 0 <= i < |opts| :: !Stops(opts[i])
    ensures Verdict(opts) == 0 <==> forall i | 0 <= i < |opts| ::
              opts[i].Verbose? || (opts[i].Card? && Accepted(opts[i].arg, MAX_CARD_NR))
              || (opts[i].Pstate? && Accepted(opts[i].arg, MAX_PSTATE))
    ensures Verdict(opts) == 1 <==> FirstStop(opts) < |opts| && (opts[FirstStop(opts)].Help? || opts[FirstStop(opts)].Version?)
    ensures Verdict(opts) in {-1, 0, 1}
  {
    var k := FirstStop(opts);
    if k < |opts| {
      assert Stops(opts[k]);
    }
  }

  /** Options after the one the loop stops at are never looked at: whatever follows it, the
      result and the configuration are the same. */
  lemma {:induction false} LaterOptionsIgnored(opts: seq<Opt>, rest: seq<Opt>, c: ConfigValue)
    requires FirstStop(opts) < |opts|
    ensures Parse(opts + rest, c) == Parse(opts, c)
  {
    var k := FirstStop(opts);
    FirstStopPrefix(opts, rest);
    assert (opts + rest)[..k + 1] == opts[..k + 1];
  }

  lemma {:induction false} FirstStopPrefix(opts: seq<Opt>, rest: seq<Opt>)
    requires FirstStop(opts) < |opts|
    ensures FirstStop(opts + rest) == FirstStop(opts)
    decreases |opts|
  {
    if !Stops(opts[0]) {
      assert (opts + rest)[1..] == opts[1..] + rest;
      FirstStopPrefix(opts[1..], rest);
    }
  }

  /** A `-c` or `-s` whose value is refused ends the loop with -1, and the refused value,
      cast to int, is still stored in its field. */
  lemma RefusedValueStored(opts: seq<Opt>, c: ConfigValue)
    requires FirstStop(opts) < |opts|
    requires opts[FirstStop(opts)].Card? || opts[FirstStop(opts)].Pstate?
    ensures Parse(opts, c).rv == -1
    ensures opts[FirstStop(opts)].Card? ==> Parse(opts, c).cfg.card == ToCInt(opts[FirstStop(opts)].arg.value)
    ensures opts[FirstStop(opts)].Pstate? ==> Parse(opts, c).cfg.pstate == ToCInt(opts[FirstStop(opts)].arg.value)
  {
    var k := FirstStop(opts);
    assert Consumed(opts) == opts[..k] + [opts[k]];
    SettleSnoc(opts[..k], opts[k], c);
    SettleOne(opts[k], Settle(opts[..k], c));
  }

  /** Each option changes only its own field: card changes only through `-c`, pstate only
      through `-s`, verbose only through `-V` and only ever to 1, and the path never. A
      repeated `-c` or `-s` leaves the last value that took effect. */
  lemma {:induction false} FieldsChangeOnlyByOwnOption(opts: seq<Opt>, c: ConfigValue)
    ensures var s, r := Consumed(opts), Parse(opts, c).cfg;
      && r.path == c.path
      && ((forall i | 0 <= i < |s| :: !s[i].Card?) ==> r.card == c.card)
      && ((forall i | 0 <= i < |s| :: !s[i].Pstate?) ==> r.pstate == c.pstate)
      && ((forall i | 0 <= i < |s| :: !s[i].Verbose?) ==> r.verbose == c.verbose)
      && (r.verbose == c.verbose || r.verbose == 1)
      && (forall j | 0 <= j < |s| && s[j].Card? && (forall i | j < i < |s| :: !s[i].Card?) ::
            r.card == ToCInt(s[j].arg.value))
      && (forall j | 0 <= j < |s| && s[j].Pstate? && (forall i | j < i < |s| :: !s[i].Pstate?) ::
            r.pstate == ToCInt(s[j].arg.value))
  {
    var s := Consumed(opts);
    var r := Parse(opts, c).cfg;
    assert r == Settle(s, c);
    assert ((forall i | 0 <= i < |s| :: !s[i].Card?) ==> r.card == c.card)
      && (forall j | 0 <= j < |s| && s[j].Card? && (forall i | j < i < |s| :: !s[i].Card?) ::
            r.card == ToCInt(s[j].arg.value)) by {
      LastAssignedSource(s, CardField, c.card);
    }
    assert ((forall i | 0 <= i < |s| :: !s[i].Pstate?) ==> r.pstate == c.pstate)
      && (forall j | 0 <= j < |s| && s[j].Pstate? && (forall i | j < i < |s| :: !s[i].Pstate?) ::
            r.pstate == ToCInt(s[j].arg.value)) by {
      LastAssignedSource(s, PstateField, c.pstate);
    }
    assert ((forall i | 0 <= i < |s| :: !s[i].Verbose?) ==> r.verbose == c.verbose)
      && (r.verbose == c.verbose || r.verbose == 1) by {
      LastAssignedSource(s, VerboseField, c.verbose);
    }
  }

  /** When parsing from main's initial configuration succeeds, card and pstate are -1 (not
      given) or in [0, 255], verbose is 0 or 1, and each is given exactly when its option is. */
  lemma {:induction false} ParsedFromInitial(opts: seq<Opt>)
    requires Parse(opts, Initial).rv == 0
    ensures var r := Parse(opts, Initial).cfg;
      && -1 <= r.card <= MAX_CARD_NR && -1 <= r.pstate <= MAX_PSTATE && 0 <= r.verbose <= 1
      && r.path == ""
      && (r.card >= 0 <==> exists i | 0 <= i < |opts| :: opts[i].Card?)
      && (r.pstate >= 0 <==> exists i | 0 <= i < |opts| :: opts[i].Pstate?)
      && (r.verbose == 1 <==> exists i | 0 <= i < |opts| :: opts[i].Verbose?)
  {
    VerdictCases(opts);
    assert Consumed(opts) == opts;
    var r := Parse(opts, Initial).cfg;
    assert r == Settle(opts, Initial);
    assert -1 <= r.card <= MAX_CARD_NR && (r.card >= 0 <==> exists i | 0 <= i < |opts| :: opts[i].Card?) by {
      LastAcceptedValue(opts, CardField, Initial.card);
    }
    assert -1 <= r.pstate <= MAX_PSTATE && (r.pstate >= 0 <==> exists i | 0 <= i < |opts| :: opts[i].Pstate?) by {
      LastAcceptedValue(opts, PstateField, Initial.pstate);
    }
    assert 0 <= r.verbose <= 1 && (r.verbose == 1 <==> exists i | 0 <= i < |opts| :: opts[i].Verbose?) by {
      LastAcceptedValue(opts, VerboseField, Initial.verbose);
    }
  }

  /** When every option was accepted, a field named by some option holds a value in range
      (1 for verbose), and a field named by none keeps its initial value. */
  lemma LastAcceptedValue(opts: seq<Opt>, f: Field, d: Int32)
    requires forall i | 0 <= i < |opts| :: !Stops(opts[i])
    ensures (forall i | 0 <= i < |opts| :: Assigned(opts[i], f).None?) ==> LastAssigned(opts, f, d) == d
    ensures (exists i | 0 <= i < |opts| :: Assigned(opts[i], f).Some?) ==>
              0 <= LastAssigned(opts, f, d) <= 255 && (f == VerboseField ==> LastAssigned(opts, f, d) == 1)
  {
    LastAssignedSource(opts, f, d);
    AcceptedValues(opts);
  }

  /** Every value an accepted option stores is in its field's range. */
  lemma AcceptedValues(opts: seq<Opt>)
    requires forall i | 0 <= i < |opts| :: !Stops(opts[i])
    ensures forall i | 0 <= i < |opts| :: Assigned(opts[i], CardField).Some? <==> opts[i].Card?
    ensures forall i | 0 <= i < |opts| :: Assigned(opts[i], PstateField).Some? <==> opts[i].Pstate?
    ensures forall i | 0 <= i < |opts| :: Assigned(opts[i], VerboseField).Some? <==> opts[i].Verbose?
    ensures forall i | 0 <= i < |opts| && Assigned(opts[i], CardField).Some? ::
              0 <= Assigned(opts[i], CardField).value <= MAX_CARD_NR
    ensures forall i | 0 <= i < |opts| && Assigned(opts[i], PstateField).Some? ::
              0 <= Assigned(opts[i], PstateField).value <= MAX_PSTATE
    ensures forall i | 0 <= i < |opts| && Assigned(opts[i], VerboseField).Some? ::
              Assigned(opts[i], VerboseField).value == 1
  {
  }
}

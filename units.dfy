/** Processing units (src/ltitop/arithmetic/fixed_point/processing_unit.py and
    src/ltitop/arithmetic/fixed_point/arithmetic_logic_unit.py): the
    configuration every unit carries (rounding method, overflow behaviour,
    the per-operation allow-overflow/underflow table, the wordlength), and
    the ambient "active unit" slot that `with unit:` blocks save and restore.

    The class hierarchy ProcessingUnit > ArithmeticLogicUnit > fixed/multi
    format unit is flattened into one class whose configuration says which
    kind of arithmetic logic unit it is. */
module Units {
  import opened Wrappers
  import opened Errors
  import opened Rounding
  import opened Overflow
  import opened Formats

  // ---- The flag table built by ProcessingUnit.__init__ ----

  /** The operations a unit class may define. */
  datatype Op =
    | Represent | Rinfo | Add | Substract | Multiply | Divide | Modulus | Compare
    | Truncate | Floor | Ceil | Ceiling | Nearest | Negate | LShift | RShift

  /** The unit operation each rounding method stands for. */
  function RoundingOp(m: Method): Op {
    match m
    case Truncate => Op.Truncate
    case Floor => Op.Floor
    case Ceil => Op.Ceil
    case NearestInteger => Nearest
    case BuiltinRound => Nearest
  }

  /** `allows_overflow` / `allows_underflow`: True (every method the concrete
      class defines), False (none), or a collection of methods. */
  datatype Allowance = Everything | Nothing | Only(ops: set<Op>)

  /** The methods an allowance lets through, given the methods the concrete
      class defines in its own body (`cls.__dict__`). */
  function Allowed(a: Allowance, defined: set<Op>): (s: set<Op>)
    ensures a.Everything? ==> s == defined
    ensures a.Nothing? ==> s == {}
    ensures a.Only? ==> s == a.ops
  {
    match a
    case Everything => defined
    case Nothing => {}
    case Only(ops) => ops
  }

  /** The annotations: the operations whose `allows_overflow`, respectively
      `allows_underflow`, attribute is true. */
  datatype Flags = Flags(overflow: set<Op>, underflow: set<Op>)

  /** The six operations annotated with both flags, each keyed on itself. */
  const BothFlags: set<Op> := {Represent, Add, Substract, Multiply, Divide, Modulus}

  /** The operations that carry an `allows_overflow` annotation at all. */
  const OverflowAnnotated: set<Op> := BothFlags + {LShift, Negate}

  /** The operations that carry an `allows_underflow` annotation at all. */
  const UnderflowAnnotated: set<Op> := BothFlags + {Compare}

  /** The flag table with `lshift` keyed on itself: the six doubly annotated
      operations by their own membership, `negate` by membership of any of
      negate, substract or multiply, `compare` with an underflow flag only. */
  function BuildFlags(defined: set<Op>, ao: Allowance, au: Allowance): (t: Flags)
    ensures t.overflow <= OverflowAnnotated && t.underflow <= UnderflowAnnotated
  {
    var o, u := Allowed(ao, defined), Allowed(au, defined);
    Flags(
      BothFlags * o
        + (if LShift in o then {LShift} else {})
        + (if Negate in o || Substract in o || Multiply in o then {Negate} else {}),
      UnderflowAnnotated * u)
  }

  /** `ProcessingUnit.__init__` as written: `lshift`'s overflow flag tests
      whether `rshift` is allowed to overflow. */
  function BuildFlagsAsWritten(defined: set<Op>, ao: Allowance, au: Allowance): (t: Flags)
    ensures t.overflow <= OverflowAnnotated && t.underflow <= UnderflowAnnotated
  {
    var o, u := Allowed(ao, defined), Allowed(au, defined);
    Flags(
      BothFlags * o
        + (if RShift in o then {LShift} else {})
        + (if Negate in o || Substract in o || Multiply in o then {Negate} else {}),
      UnderflowAnnotated * u)
  }

  /** What the table means, operation by operation. */
  lemma BuildFlagsMeans(defined: set<Op>, ao: Allowance, au: Allowance, op: Op)
    ensures var t, o, u := BuildFlags(defined, ao, au), Allowed(ao, defined), Allowed(au, defined);
      && (op in BothFlags ==> (op in t.overflow <==> op in o) && (op in t.underflow <==> op in u))
      && (LShift in t.overflow <==> LShift in o)
      && (Negate in t.overflow <==> Negate in o || Substract in o || Multiply in o)
      && (Compare in t.underflow <==> Compare in u)
      && Compare !in t.overflow && LShift !in t.underflow && Negate !in t.underflow
      && RShift !in t.overflow && RShift !in t.underflow
  {
  }

  /** Allowing more never disallows anything. */
  lemma BuildFlagsMonotone(defined: set<Op>, ao: Allowance, au: Allowance, ao': Allowance, au': Allowance)
    requires Allowed(ao, defined) <= Allowed(ao', defined)
    requires Allowed(au, defined) <= Allowed(au', defined)
    ensures BuildFlags(defined, ao, au).overflow <= BuildFlags(defined, ao', au').overflow
    ensures BuildFlags(defined, ao, au).underflow <= BuildFlags(defined, ao', au').underflow
  {
  }

  /** False for both flags disallows everything. */
  lemma BuildFlagsNothing(defined: set<Op>)
    ensures BuildFlags(defined, Nothing, Nothing) == Flags({}, {})
  {
  }

  /** As written and corrected agree whenever lshift and rshift are allowed
      alike, which True on a class defining both (every arithmetic logic
      unit) and False always give. */
  lemma BuildFlagsAgree(defined: set<Op>, ao: Allowance, au: Allowance)
    requires LShift in Allowed(ao, defined) <==> RShift in Allowed(ao, defined)
    ensures BuildFlagsAsWritten(defined, ao, au) == BuildFlags(defined, ao, au)
  {
  }

  /** Allowing only lshift to overflow leaves it disallowed as written. */
  lemma LShiftKeyedOnRShift(defined: set<Op>, au: Allowance)
    ensures LShift !in BuildFlagsAsWritten(defined, Only({LShift}), au).overflow
    ensures LShift in BuildFlags(defined, Only({LShift}), au).overflow
    ensures LShift in BuildFlagsAsWritten(defined, Only({RShift}), au).overflow
  {
  }

  // ---- Unit configuration ----

  /** Which arithmetic logic unit: one format throughout, or many formats
      within one wordlength. */
  datatype Kind = FixedFormat(format: Format) | MultiFormat

  /** The methods both arithmetic logic unit classes define in their own
      bodies (neither defines divide, modulus or ceiling). */
  const AluOps: set<Op> :=
    {Represent, Rinfo, Add, Substract, Multiply, Op.Truncate, Op.Floor, Op.Ceil, Nearest,
     Negate, Compare, LShift, RShift}

  /** `ProcessingUnit.Info`: the step, and the least and greatest values. */
  datatype Info = Info(eps: real, min: real, max: real)

  /** What a unit is configured with at construction; none of it changes. */
  datatype Config = Config(
    rounding: Method, overflow: Behavior, flags: Flags, wordlength: nat, kind: Kind)

  /** What construction guarantees: at least one bit, and a fixed-format
      unit as wide as its format. */
  predicate ValidConfig(c: Config) {
    c.wordlength >= 1 && (c.kind.FixedFormat? ==> c.wordlength == Wordlength(c.kind.format))
  }

  predicate AllowsOverflow(c: Config, op: Op) {
    op in c.flags.overflow
  }

  predicate AllowsUnderflow(c: Config, op: Op) {
    op in c.flags.underflow
  }

  /** The defaults of `ProcessingUnit.__init__`. */
  const DefaultRounding: Method := Method.Floor
  const DefaultOverflow: Behavior := Wrapping

  /** The configuration `ArithmeticLogicUnit.__init__` stores: ValueError for
      a wordlength below one bit (after the flag table is built). */
  function MakeConfig(wordlength: int, rounding: Method, overflow: Behavior,
                      ao: Allowance, au: Allowance, kind: Kind): (r: Result<Config>)
    ensures r.Ok? <==> wordlength >= 1
    ensures r.Err? ==> r.error == ValueError
    ensures r.Ok? ==> r.value.wordlength == wordlength && r.value.kind == kind
    ensures r.Ok? ==> r.value.rounding == rounding && r.value.overflow == overflow
  {
    if wordlength < 1 then Err(ValueError)
    else Ok(Config(rounding, overflow, BuildFlags(AluOps, ao, au), wordlength, kind))
  }

  /** With the defaults every operation of an arithmetic logic unit may
      overflow and underflow, except that compare has no overflow flag and
      lshift none for underflow. */
  lemma DefaultFlags(c: Config)
    requires c == MakeConfig(8, DefaultRounding, DefaultOverflow, Everything, Everything, MultiFormat).value
    ensures AllowsOverflow(c, Add) && AllowsUnderflow(c, Add)
    ensures AllowsOverflow(c, Negate) && AllowsOverflow(c, LShift) && AllowsUnderflow(c, Compare)
    ensures !AllowsOverflow(c, Compare) && !AllowsOverflow(c, Divide)
    ensures c.rounding == Method.Floor && c.overflow == Wrapping
  {
  }

  /** A fixed-format unit whose format is unsigned with msb == lsb has no
      bits at all, which `ArithmeticLogicUnit.__init__` rejects. */
  lemma EmptyFixedFormatRejected(f: Format, m: Method, b: Behavior, ao: Allowance, au: Allowance)
    requires !f.signed && f.msb == f.lsb
    ensures MakeConfig(Wordlength(f), m, b, ao, au, FixedFormat(f)) == Err(ValueError)
  {
  }

  /** A configuration that construction accepts is a valid one. */
  lemma MakeConfigValid(f: Format, m: Method, b: Behavior, ao: Allowance, au: Allowance)
    requires MakeConfig(Wordlength(f), m, b, ao, au, FixedFormat(f)).Ok?
    ensures ValidConfig(MakeConfig(Wordlength(f), m, b, ao, au, FixedFormat(f)).value)
  {
  }

  // ---- The active unit slot ----

  /** What `__enter__` saved in the instance: nothing yet, or the unit that
      was active (possibly none). */
  datatype Saved = NeverEntered | Saved(unit: Option<ProcessingUnit>)

  /** A processing unit: its configuration, fixed at construction, and the
      per-instance slot `__enter__` saves the previously active unit in. */
  class ProcessingUnit {
    const config: Config
    var lastActive: Saved

    constructor (config: Config)
      ensures this.config == config && lastActive == NeverEntered
    {
      this.config := config;
      lastActive := NeverEntered;
    }

    /** The wordlength property; there is no setter. */
    function Wordlength(): (w: nat)
      ensures w == config.wordlength
    {
      config.wordlength
    }

    /** `__enter__`: remember the active unit, become the active unit. */
    method Enter(slot: ActiveSlot)
      modifies this, slot
      ensures lastActive == Saved(old(slot.active)) && slot.active == Some(this)
    {
      lastActive := Saved(slot.active);
      slot.active := Some(this);
    }

    /** `__exit__`: restore the remembered unit. Exiting a unit that was
        never entered raises AttributeError and changes nothing. */
    method Exit(slot: ActiveSlot) returns (e: Option<Error>)
      modifies slot
      ensures lastActive.NeverEntered? ==> e == Some(AttributeError) && slot.active == old(slot.active)
      ensures lastActive.Saved? ==> e == None && slot.active == lastActive.unit
    {
      if lastActive.NeverEntered? {
        e := Some(AttributeError);
      } else {
        slot.active := lastActive.unit;
        e := None;
      }
    }
  }

  /** `ArithmeticLogicUnit(wordlength=..., ...)`: a fresh unit that has never
      been entered, or ValueError for a wordlength below one bit. */
  method NewArithmeticLogicUnit(wordlength: int, rounding: Method, overflow: Behavior,
                                ao: Allowance, au: Allowance, kind: Kind)
    returns (r: Result<ProcessingUnit>)
    ensures r.Ok? <==> wordlength >= 1
    ensures r.Err? ==> r.error == ValueError
    ensures r.Ok? ==> fresh(r.value) && r.value.lastActive == NeverEntered
    ensures r.Ok? ==> r.value.config == MakeConfig(wordlength, rounding, overflow, ao, au, kind).value
  {
    var c := MakeConfig(wordlength, rounding, overflow, ao, au, kind);
    if c.Err? {
      return Err(c.error);
    }
    var u := new ProcessingUnit(c.value);
    return Ok(u);
  }

  /** The class-level `ProcessingUnit.__active` attribute. */
  class ActiveSlot {
    var active: Option<ProcessingUnit>

    constructor ()
      ensures active == None
    {
      active := None;
    }

    /** `ProcessingUnit.active()`: the active unit, RuntimeError when none. */
    function Active(): (r: Result<ProcessingUnit>)
      reads this
      ensures r.Ok? <==> active.Some?
      ensures r.Ok? ==> active == Some(r.value)
      ensures r.Err? ==> r.error == RuntimeError
    {
      match active
      case None => Err(RuntimeError)
      case Some(u) => Ok(u)
    }

    /** The configuration of the active unit, which is what the arithmetic
        wrappers delegate to. */
    function ActiveConfig(): (r: Option<Config>)
      reads this
      ensures r.Some? <==> active.Some?
      ensures r.Some? ==> r.value == active.value.config
    {
      match active
      case None => None
      case Some(u) => Some(u.config)
    }
  }

  /** Two distinct units entered one inside the other: the inner one is
      active inside, the outer one after the inner exits, none after both. */
  method NestedUnits(slot: ActiveSlot, a: ProcessingUnit, b: ProcessingUnit)
    returns (inner: Result<ProcessingUnit>, middle: Result<ProcessingUnit>, outer: Result<ProcessingUnit>)
    requires a != b && slot.active == None
    modifies slot, a, b
    ensures inner == Ok(b) && middle == Ok(a) && outer == Err(RuntimeError)
  {
    a.Enter(slot);
    b.Enter(slot);
    inner := slot.Active();
    var _ := b.Exit(slot);
    middle := slot.Active();
    var _ := a.Exit(slot);
    outer := slot.Active();
  }

  /** One unit entered twice, nested: the second entry overwrites the saved
      predecessor with the unit itself, so it stays active after both exits. */
  method ReenteredUnit(slot: ActiveSlot, a: ProcessingUnit) returns (after: Result<ProcessingUnit>)
    requires slot.active == None
    modifies slot, a
    ensures after == Ok(a)
  {
    a.Enter(slot);
    a.Enter(slot);
    var _ := a.Exit(slot);
    var _ := a.Exit(slot);
    after := slot.Active();
  }
}

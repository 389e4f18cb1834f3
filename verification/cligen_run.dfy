/**
 * The command pipeline of the CXL vendor-command generator: each schema
 * command is dropped (its input payload is not simple), put in the
 * skipped table (a payload of variable size) or generated into the
 * fragment tables, all keyed by the lower-cased command name in the
 * order commands first appear.
 */
module CligenRun {
  import opened Wrappers
  import opened CligenPayload
  import opened CligenEmit

  /** Only commands whose input parameters are all 1, 2, 4 or 8 bytes wide are generated. */
  const SIMPLE: bool := true

  /** One command of the schema. */
  datatype Command = Command(opcodeName: string, opcode: int, mnemonic: string, ipl: RawPayload, opl: RawPayload)

  /**
   * What the tables hold for one generated command: the command-table
   * name (the mnemonic with `-` for `_`), the mnemonic that names the
   * prototype, command and symbol, and each fragment.
   */
  datatype Entry = Entry(
    cliName: string,
    mnemonic: string,
    paramStruct: seq<Member>,
    options: OptionsDef,
    optionStruct: seq<OptionRef>,
    actionCall: seq<CallArg>,
    memCmdInfo: seq<Define>,
    mboxIn: Option<seq<Decl>>,
    mboxOut: Option<seq<Decl>>,
    libExport: Export,
    header: seq<Arg>)

  /** A skipped command: the two payload sizes, at least one of them a text. */
  datatype Skip = Skip(iplSize: SizeField, oplSize: SizeField)

  // ---------------------------------------------------------------------
  // Insertion-ordered tables
  // ---------------------------------------------------------------------

  function Keys<V>(t: seq<(string, V)>): (r: seq<string>)
    ensures |r| == |t| && forall i :: 0 <= i < |t| ==> r[i] == t[i].0
  {
    seq(|t|, i requires 0 <= i < |t| => t[i].0)
  }

  /** The value stored under `k`. */
  function Lookup<V>(t: seq<(string, V)>, k: string): Option<V>
    decreases |t|
  {
    if |t| == 0 then None else if t[0].0 == k then Some(t[0].1) else Lookup(t[1..], k)
  }

  predicate DistinctKeys<V>(t: seq<(string, V)>)
  {
    forall i, j :: 0 <= i < j < |t| ==> t[i].0 != t[j].0
  }

  /**
   * `d[k] = v` on a Python dict: a new key goes at the end, an existing
   * one keeps its place and takes the new value.
   */
  function Put<V>(t: seq<(string, V)>, k: string, v: V): (r: seq<(string, V)>)
    ensures Keys(r) == if k in Keys(t) then Keys(t) else Keys(t) + [k]
    ensures Lookup(r, k) == Some(v)
    ensures forall k' :: k' != k ==> Lookup(r, k') == Lookup(t, k')
    decreases |t|
  {
    if |t| == 0 then [(k, v)]
    else if t[0].0 == k then
      assert t == [t[0]] + t[1..];
      KeysCons(t[0], t[1..]);
      KeysCons((k, v), t[1..]);
      LookupCons((k, v), t[1..]);
      [(k, v)] + t[1..]
    else
      var rest := Put(t[1..], k, v);
      assert t == [t[0]] + t[1..];
      KeysCons(t[0], t[1..]);
      KeysCons(t[0], rest);
      LookupCons(t[0], rest);
      [t[0]] + rest
  }

  /** The keys of a table with one more entry at the front. */
  lemma KeysCons<V>(p: (string, V), t: seq<(string, V)>)
    ensures Keys([p] + t) == [p.0] + Keys(t)
  {
    var a := Keys([p] + t);
    var b := [p.0] + Keys(t);
    forall i | 0 <= i < |a|
      ensures a[i] == b[i]
    {
      if i > 0 {
        assert ([p] + t)[i] == t[i - 1];
      }
    }
  }

  /** The lookups in a table with one more entry at the front. */
  lemma LookupCons<V>(p: (string, V), t: seq<(string, V)>)
    ensures forall k :: Lookup([p] + t, k) == if p.0 == k then Some(p.1) else Lookup(t, k)
  {
    assert ([p] + t)[1..] == t;
  }

  lemma PutKeepsDistinct<V>(t: seq<(string, V)>, k: string, v: V)
    requires DistinctKeys(t)
    ensures DistinctKeys(Put(t, k, v))
  {
    var r := Put(t, k, v);
    assert forall i :: 0 <= i < |r| ==> r[i].0 == Keys(r)[i];
    assert forall i :: 0 <= i < |t| ==> t[i].0 == Keys(t)[i];
  }

  // ---------------------------------------------------------------------
  // One command
  // ---------------------------------------------------------------------

  /** What becomes of one command. */
  datatype Outcome = Dropped | Skipped(skip: Skip) | Generated(entry: Entry)

  /** Everything `run` generates for a command. */
  function Generate(mnemonic: string, opcode: int, ipl: Payload, opl: Payload, name: string): (r: Entry)
    ensures '_' !in r.cliName && |r.cliName| == |mnemonic|
  {
    SubChar(mnemonic, '_', '-');
    Entry(
      Sub(mnemonic, "_", "-"),
      mnemonic,
      ParamStruct(ipl),
      OptionsAsWritten(ipl),
      OptionStruct(ipl),
      ActionCall(ipl),
      MemCmdInfo(opcode, ipl, opl),
      Mbox(ipl),
      Mbox(opl),
      CxlExport(ipl, opl, name),
      Prototype(ipl))
  }

  /**
   * The body of the loop of `run`: the input payload is built first and
   * a command whose input is not simple is dropped before its output is
   * looked at; a variable-sized payload sends it to the skipped table.
   * `None` when the pass never finishes: building a payload raises, or
   * the flag loop of a generated command indexes an empty mnemonic
   * (which raises) or finds every flag taken (which loops for ever).
   */
  function Classify(c: Command): (r: Option<Outcome>)
  {
    match NewPayload(c.ipl)
    case None => None
    case Some(ipl) =>
      if SIMPLE && !ipl.simple then Some(Dropped)
      else
        match NewPayload(c.opl)
        case None => None
        case Some(opl) =>
          if !(ipl.fixedSize && opl.fixedSize) then Some(Skipped(Skip(ipl.size, opl.size)))
          else if OptionsAsWritten(ipl).Fails? then None
          else Some(Generated(Generate(Lower(c.mnemonic), c.opcode, ipl, opl, Lower(c.opcodeName))))
  }

  /**
   * The outcomes of one command: dropped exactly when its input payload
   * is not simple; skipped only for a variable-sized payload, with both
   * sizes recorded; generated only from fixed-size payloads whose input
   * parameters are all 1, 2, 4 or 8 bytes wide, and only when the flag
   * loop produced the options. The pass never finishes when a payload
   * fails to build or, for a command about to be generated, the flag
   * loop fails.
   */
  lemma ClassifyOutcomes(c: Command)
    ensures Classify(c) == Some(Dropped) <==> NewPayload(c.ipl).Some? && !NewPayload(c.ipl).value.simple
    ensures Classify(c).None? <==>
              NewPayload(c.ipl).None? ||
              (NewPayload(c.ipl).value.simple &&
               (NewPayload(c.opl).None? ||
                (!c.ipl.size.Variable? && !c.opl.size.Variable? && OptionsAsWritten(NewPayload(c.ipl).value).Fails?)))
    ensures Classify(c).Some? && Classify(c).value.Skipped? ==> (c.ipl.size.Variable? || c.opl.size.Variable?) && Classify(c).value.skip == Skip(c.ipl.size, c.opl.size)
    ensures Classify(c).Some? && Classify(c).value.Generated? ==>
              !c.ipl.size.Variable? && !c.opl.size.Variable? && AllSimple(c.ipl.params) && !Classify(c).value.entry.options.Fails?
  {
    PayloadBuilt(c.ipl);
    PayloadBuilt(c.opl);
  }

  /**
   * A command about to be generated whose input payload exposes a
   * parameter with an empty mnemonic stops the run: `mn[0]` raises.
   */
  lemma EmptyMnemonicStopsRun(cmds: seq<Command>, i: nat)
    requires i < |cmds|
    requires NewPayload(cmds[i].ipl).Some? && NewPayload(cmds[i].opl).Some?
    requires !cmds[i].ipl.size.Variable? && !cmds[i].opl.size.Variable? && AllSimple(cmds[i].ipl.params)
    requires exists p :: p in UserParams(NewPayload(cmds[i].ipl).value.params) && p.mn == ""
    ensures Run(cmds).None?
  {
    EmptyMnemonicFails(cmds[i]);
    RunDefined(cmds);
  }

  lemma EmptyMnemonicFails(c: Command)
    requires NewPayload(c.ipl).Some? && NewPayload(c.opl).Some?
    requires !c.ipl.size.Variable? && !c.opl.size.Variable? && AllSimple(c.ipl.params)
    requires exists p :: p in UserParams(NewPayload(c.ipl).value.params) && p.mn == ""
    ensures Classify(c).None?
  {
    var ipl := NewPayload(c.ipl).value;
    var us := UserParams(ipl.params);
    var p :| p in us && p.mn == "";
    var k :| 0 <= k < |us| && us[k] == p;
    assert Mnemonics(us)[k] == "";
    assert ipl.paramsUsed by {
      PayloadBuilt(c.ipl);
      var j :| 0 <= j < |ipl.params| && ipl.params[j] == p;
      assert Some(p) == MakeParam(c.ipl.params[j], NamesAsWritten(c.ipl.params)[j]);
    }
    OptionsAsWrittenFail(ipl);
    ClassifyOutcomes(c);
  }

  /** The schema command of one parameter with no mnemonic, as the schema may leave it out. */
  lemma UnnamedParameterStopsRun()
    ensures var raw := RawPayload("", "", Fixed(4), [RawParam("x", "", 4, 0, 0, [], false)]);
            Run([Command("op", 0, "op", raw, RawPayload("", "", Fixed(0), []))]).None?
  {
    var rp := RawParam("x", "", 4, 0, 0, [], false);
    var raw := RawPayload("", "", Fixed(4), [rp]);
    var c := Command("op", 0, "op", raw, RawPayload("", "", Fixed(0), []));
    assert Lower("") == "";
    assert [rp][1..] == [];
    assert NamesAsWritten([rp]) == [""];
    PayloadBuilt(raw);
    PayloadBuilt(c.opl);
    var ipl := NewPayload(raw).value;
    assert ipl.params[0].mn == "";
    assert !IsRsvd("");
    assert ipl.params[0] in UserParams(ipl.params);
    assert AllSimple(raw.params) by {
      assert TokenOfWidth(4).Some?;
    }
    EmptyMnemonicStopsRun([c], 0);
  }

  /** The key of a command in every table. */
  function Key(c: Command): string
  {
    Lower(c.opcodeName)
  }

  /**
   * A generated command's parameter struct holds every exposed input
   * parameter in full, and its options carry distinct flags. The flag
   * loop does not know that the base options hold 'v' already; where it
   * hands out no 'v' the options are the corrected ones.
   */
  lemma GeneratedFits(c: Command)
    requires Classify(c).Some? && Classify(c).value.Generated?
    ensures var ipl := NewPayload(c.ipl).value;
            var e := Classify(c).value.entry;
            var us := UserParams(ipl.params);
            forall i :: 0 <= i < |us| ==> us[i].size <= StorageBytes(e.paramStruct[i].storage)
    ensures var e := Classify(c).value.entry;
            e.options.Options? ==> forall i, j :: 0 <= i < j < |e.options.opts| ==> e.options.opts[i].flag != e.options.opts[j].flag
    ensures var e := Classify(c).value.entry;
            e.options.Options? && (forall i :: 0 <= i < |e.options.opts| ==> e.options.opts[i].flag != BASE_FLAG) ==>
              e.options == DefOptions(NewPayload(c.ipl).value)
  {
    var ipl := NewPayload(c.ipl).value;
    ClassifyOutcomes(c);
    var e := Classify(c).value.entry;
    assert e.paramStruct == ParamStruct(ipl);
    assert e.options == OptionsAsWritten(ipl);
    SimpleParamsNarrow(c.ipl);
    StorageHolds(ipl);
    if e.options.Options? && (forall i :: 0 <= i < |e.options.opts| ==> e.options.opts[i].flag != BASE_FLAG) {
      OptionsAgree(ipl);
    }
  }

  lemma SimpleParamsNarrow(raw: RawPayload)
    requires NewPayload(raw).Some? && !raw.size.Variable? && AllSimple(raw.params)
    ensures forall p :: p in UserParams(NewPayload(raw).value.params) ==> p.size <= 8
  {
    PayloadBuilt(raw);
    var ps := NewPayload(raw).value.params;
    forall p | p in UserParams(ps)
      ensures p.size <= 8
    {
      var k :| 0 <= k < |ps| && ps[k] == p;
      assert Some(ps[k]) == MakeParam(raw.params[k], NamesAsWritten(raw.params)[k]);
    }
  }

  // ---------------------------------------------------------------------
  // The loop
  // ---------------------------------------------------------------------

  /** The fragment tables, all keyed alike, and the skipped table. */
  datatype Tables = Tables(entries: seq<(string, Entry)>, skipped: seq<(string, Skip)>)

  /** One pass of the loop: the command's key and its outcome, `None` when building a payload raised. */
  type Pass = (string, Option<Outcome>)

  /** The passes of the commands in schema order. */
  function Passes(cmds: seq<Command>): (r: seq<Pass>)
    ensures |r| == |cmds|
  {
    seq(|cmds|, i requires 0 <= i < |cmds| => (Key(cmds[i]), Classify(cmds[i])))
  }

  /** The body of the loop once the outcome is known: a generated entry or the skipped sizes go under the key. */
  function Store(t: Tables, k: string, o: Outcome): (r: Tables)
    ensures Keys(t.entries) <= Keys(r.entries) && Keys(t.skipped) <= Keys(r.skipped)
    ensures o.Dropped? ==> r == t
  {
    match o
    case Dropped => t
    case Skipped(s) => Tables(t.entries, Put(t.skipped, k, s))
    case Generated(e) => Tables(Put(t.entries, k, e), t.skipped)
  }

  /** The loop over the passes in order; `None` from the first pass that raised on. */
  function Fold(ps: seq<Pass>): (r: Option<Tables>)
    decreases |ps|
  {
    if |ps| == 0 then Some(Tables([], []))
    else
      var last := ps[|ps| - 1];
      match Fold(ps[..|ps| - 1])
      case None => None
      case Some(t) => if last.1.None? then None else Some(Store(t, last.0, last.1.value))
  }

  /** `run` over the commands in schema order; `None` once building a payload raises. */
  function Run(cmds: seq<Command>): Option<Tables>
  {
    Fold(Passes(cmds))
  }

  /** The passes of a prefix of the commands are that prefix of their passes. */
  lemma PassesPrefix(cmds: seq<Command>, n: nat)
    requires n <= |cmds|
    ensures Passes(cmds[..n]) == Passes(cmds)[..n]
  {
    var a := Passes(cmds[..n]);
    var b := Passes(cmds)[..n];
    forall i | 0 <= i < n
      ensures a[i] == b[i]
    {
      assert cmds[..n][i] == cmds[i];
    }
  }

  /** The loop completes exactly when no pass raised. */
  lemma {:induction false} FoldDefined(ps: seq<Pass>)
    ensures Fold(ps).Some? <==> forall i :: 0 <= i < |ps| ==> ps[i].1.Some?
    decreases |ps|
  {
    if |ps| > 0 {
      var init := ps[..|ps| - 1];
      FoldDefined(init);
      assert forall i :: 0 <= i < |init| ==> init[i] == ps[i];
    }
  }

  /**
   * The run completes exactly when no command's pass stops it: no
   * payload raises and the flag loop of every generated command ends.
   */
  lemma RunDefined(cmds: seq<Command>)
    ensures Run(cmds).Some? <==> forall i :: 0 <= i < |cmds| ==> Classify(cmds[i]).Some?
  {
    var ps := Passes(cmds);
    FoldDefined(ps);
    assert forall i :: 0 <= i < |cmds| ==> ps[i].1 == Classify(cmds[i]);
  }

  /** The entry of the last generated pass with key `k`. */
  function LastGenerated(ps: seq<Pass>, k: string): Option<Entry>
    decreases |ps|
  {
    if |ps| == 0 then None
    else
      var last := ps[|ps| - 1];
      if last.0 == k && last.1.Some? && last.1.value.Generated? then Some(last.1.value.entry)
      else LastGenerated(ps[..|ps| - 1], k)
  }

  /** The sizes of the last skipped pass with key `k`. */
  function LastSkipped(ps: seq<Pass>, k: string): Option<Skip>
    decreases |ps|
  {
    if |ps| == 0 then None
    else
      var last := ps[|ps| - 1];
      if last.0 == k && last.1.Some? && last.1.value.Skipped? then Some(last.1.value.skip)
      else LastSkipped(ps[..|ps| - 1], k)
  }

  /** The tables after a completed loop list every key once, each with its last generated entry and its last skipped sizes. */
  lemma {:induction false} FoldTables(ps: seq<Pass>)
    requires Fold(ps).Some?
    ensures DistinctKeys(Fold(ps).value.entries) && DistinctKeys(Fold(ps).value.skipped)
    ensures forall k :: Lookup(Fold(ps).value.entries, k) == LastGenerated(ps, k)
    ensures forall k :: Lookup(Fold(ps).value.skipped, k) == LastSkipped(ps, k)
    decreases |ps|
  {
    if |ps| > 0 {
      var init := ps[..|ps| - 1];
      var last := ps[|ps| - 1];
      FoldTables(init);
      var t := Fold(init).value;
      match last.1.value
      case Dropped =>
      case Skipped(s) =>
        PutKeepsDistinct(t.skipped, last.0, s);
      case Generated(e) =>
        PutKeepsDistinct(t.entries, last.0, e);
    }
  }

  /**
   * Each table lists every key once; a key's entry is that of the last
   * generated command of that name, and its skipped sizes those of the
   * last skipped one. A dropped command leaves no trace.
   */
  lemma RunTables(cmds: seq<Command>)
    requires Run(cmds).Some?
    ensures DistinctKeys(Run(cmds).value.entries) && DistinctKeys(Run(cmds).value.skipped)
    ensures forall k :: Lookup(Run(cmds).value.entries, k) == LastGenerated(Passes(cmds), k)
    ensures forall k :: Lookup(Run(cmds).value.skipped, k) == LastSkipped(Passes(cmds), k)
  {
    FoldTables(Passes(cmds));
  }

  /** A later pass never reorders the tables. */
  lemma {:induction false} FoldKeepsOrder(ps: seq<Pass>, n: nat)
    requires n <= |ps| && Fold(ps).Some?
    ensures Fold(ps[..n]).Some?
    ensures Keys(Fold(ps[..n]).value.entries) <= Keys(Fold(ps).value.entries)
    ensures Keys(Fold(ps[..n]).value.skipped) <= Keys(Fold(ps).value.skipped)
    decreases |ps|
  {
    if n == |ps| {
      assert ps[..n] == ps;
    } else {
      var init := ps[..|ps| - 1];
      assert init[..n] == ps[..n];
      FoldKeepsOrder(init, n);
    }
  }

  /**
   * A later command never reorders the tables: the keys after a prefix
   * of the commands lead the keys after all of them.
   */
  lemma RunKeepsOrder(cmds: seq<Command>, n: nat)
    requires n <= |cmds| && Run(cmds).Some?
    ensures Run(cmds[..n]).Some?
    ensures Keys(Run(cmds[..n]).value.entries) <= Keys(Run(cmds).value.entries)
    ensures Keys(Run(cmds[..n]).value.skipped) <= Keys(Run(cmds).value.skipped)
  {
    PassesPrefix(cmds, n);
    FoldKeepsOrder(Passes(cmds), n);
  }

  /** A command whose input payload is not simple is dropped whatever its output payload holds. */
  lemma DroppedIgnoresOutput(c: Command, opl: RawPayload)
    requires NewPayload(c.ipl).Some? && !NewPayload(c.ipl).value.simple
    ensures Classify(c) == Some(Dropped) && Classify(c.(opl := opl)) == Some(Dropped)
  {
    ClassifyOutcomes(c);
    ClassifyOutcomes(c.(opl := opl));
  }
}

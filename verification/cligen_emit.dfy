/**
 * The emission rules of the CXL vendor-command generator, kept as
 * records rather than text: the members of the parameter struct, the
 * command-line options and their one-letter flags, the option table, the
 * library prototype and its call, the command-info macros, the packed
 * mailbox structs and the body of the exported library function.
 */
module CligenEmit {
  import opened Wrappers
  import opened CStr
  import opened CligenPayload

  // ---------------------------------------------------------------------
  // The parameters a command exposes
  // ---------------------------------------------------------------------

  /** The parameters the CLI and the library expose: all but the reserved fields, in schema order. */
  function UserParams(ps: seq<Param>): (r: seq<Param>)
    ensures |r| <= |ps|
    ensures forall p :: p in r <==> p in ps && !IsRsvd(p.mn)
    decreases |ps|
  {
    if |ps| == 0 then []
    else (if IsRsvd(ps[0].mn) then [] else [ps[0]]) + UserParams(ps[1..])
  }

  /** Storage of a member of the parameter struct. */
  datatype Storage = U32 | U64 | Boolean

  function StorageBytes(s: Storage): nat
  {
    match s
    case U32 => 4
    case U64 => 8
    case Boolean => 1
  }

  /** One member of `struct _<name>_params`. */
  datatype Member = Member(storage: Storage, name: string)

  /** Fields of up to four bytes are held in a `u32`, wider ones in a `u64`. */
  function StorageOf(p: Param): Storage
  {
    if p.size < 5 then U32 else U64
  }

  /**
   * `generate_ipl_struct`: one member per exposed input parameter, in
   * schema order, then the `verbose` flag last.
   */
  function ParamStruct(ipl: Payload): (r: seq<Member>)
    ensures |r| == |UserParams(ipl.params)| + 1
    ensures r[|r| - 1] == Member(Boolean, "verbose")
    ensures forall i :: 0 <= i < |r| - 1 ==> r[i].name == UserParams(ipl.params)[i].mn && !IsRsvd(r[i].name)
  {
    var us := UserParams(ipl.params);
    assert forall i :: 0 <= i < |us| ==> us[i] in us;
    seq(|us|, i requires 0 <= i < |us| => Member(StorageOf(us[i]), us[i].mn)) + [Member(Boolean, "verbose")]
  }

  /**
   * A member holds every value of its parameter exactly when the
   * parameter is at most eight bytes wide, which every parameter of a
   * simple payload is.
   */
  lemma StorageHolds(ipl: Payload)
    ensures var r := ParamStruct(ipl);
            var us := UserParams(ipl.params);
            forall i :: 0 <= i < |us| ==> (us[i].size <= StorageBytes(r[i].storage) <==> us[i].size <= 8)
  {
  }

  // ---------------------------------------------------------------------
  // Command-line options and their flags
  // ---------------------------------------------------------------------

  /** The flag of the `verbose` option every command defines in its base options. */
  const BASE_FLAG: char := 'v'

  /** The next candidate flag: one character on, or back to 'A' past 'z'. */
  function NextFlag(c: char): (r: char)
    ensures r as int <= 122
    ensures c as int >= 122 ==> r == 'A'
  {
    if c as int + 1 > 122 then 'A' else (c as int + 1) as char
  }

  /** The `while flag in flags` loop, cut off after `fuel` steps. */
  function NextFree(c: char, taken: set<char>, fuel: nat): (r: Option<char>)
    ensures r.Some? ==> r.value !in taken && (r.value == c || r.value as int <= 122)
    decreases fuel
  {
    if c !in taken then Some(c)
    else if fuel == 0 then None
    else NextFree(NextFlag(c), taken, fuel - 1)
  }

  /**
   * The flag chosen for a mnemonic starting with `c`: `None` when the
   * loop never ends. 122 steps reach every character from 'A' to 'z'
   * from any start.
   */
  function PickFlag(c: char, taken: set<char>): (r: Option<char>)
    ensures r.Some? ==> r.value !in taken && (r.value == c || r.value as int <= 122)
  {
    NextFree(c, taken, 122)
  }

  /** Steps from `c` to the letter `k` along the flag walk. */
  function Dist(c: char, k: char): nat
    requires 'A' <= k <= 'z'
  {
    if c <= k then k as int - c as int
    else (if c as int > 122 then 1 else 123 - c as int) + (k as int - 65)
  }

  lemma {:induction false} NextFreeReaches(c: char, taken: set<char>, fuel: nat, k: char)
    requires 'A' <= k <= 'z' && k !in taken
    requires Dist(c, k) <= fuel
    ensures NextFree(c, taken, fuel).Some?
    decreases fuel
  {
    if c in taken {
      assert c != k;
      assert Dist(NextFlag(c), k) == Dist(c, k) - 1;
      NextFreeReaches(NextFlag(c), taken, fuel - 1, k);
    }
  }

  /** The loop ends whenever some character from 'A' to 'z' is still free. */
  lemma PickFinds(c: char, taken: set<char>, k: char)
    requires 'A' <= k <= 'z' && k !in taken
    ensures PickFlag(c, taken).Some?
  {
    NextFreeReaches(c, taken, 122, k);
  }

  /** The 58 characters from `lo` to 'z'. */
  function LettersFrom(lo: int): (r: set<char>)
    requires 65 <= lo <= 123
    ensures |r| == 123 - lo
    ensures forall c :: c in r <==> lo <= c as int <= 122
    decreases 123 - lo
  {
    if lo == 123 then {}
    else
      var rest := LettersFrom(lo + 1);
      assert (lo as char) !in rest;
      {lo as char} + rest
  }

  lemma SubsetCard(a: set<char>, b: set<char>)
    requires a <= b
    ensures |a| <= |b|
  {
    assert b == a + (b - a);
  }

  /** With fewer than 58 flags taken, some character from 'A' to 'z' is free. */
  lemma FreeLetter(taken: set<char>) returns (k: char)
    requires |taken| < 58
    ensures 'A' <= k <= 'z' && k !in taken
  {
    var letters := LettersFrom(65);
    if letters <= taken {
      SubsetCard(letters, taken);
      assert false;
    }
    var x :| x in letters && x !in taken;
    k := x;
  }

  predicate AllNonEmpty(mns: seq<string>)
  {
    forall i :: 0 <= i < |mns| ==> |mns[i]| > 0
  }

  /**
   * The flag letters of `generate_def_options`: each option takes the
   * first character of its mnemonic, or the next free one, wrapping from
   * past 'z' to 'A'. `None` when a mnemonic is empty (indexing it raises)
   * or the loop never ends. `taken` is what the loop starts from.
   */
  function AssignFlags(mns: seq<string>, taken: set<char>): (r: Option<seq<char>>)
    ensures r.Some? ==> |r.value| == |mns| && AllNonEmpty(mns)
    ensures r.Some? ==> forall i :: 0 <= i < |mns| ==> r.value[i] !in taken
    ensures r.Some? ==> forall i, j :: 0 <= i < j < |mns| ==> r.value[i] != r.value[j]
    ensures r.Some? && |mns| > 0 && mns[0][0] !in taken ==> r.value[0] == mns[0][0]
    decreases |mns|
  {
    if |mns| == 0 then Some([])
    else if |mns[0]| == 0 then None
    else
      match PickFlag(mns[0][0], taken)
      case None => None
      case Some(f) =>
        match AssignFlags(mns[1..], taken + {f})
        case None => None
        case Some(fs) =>
          FlagsStep(mns, taken, f, fs);
          Some([f] + fs)
  }

  lemma FlagsStep(mns: seq<string>, taken: set<char>, f: char, fs: seq<char>)
    requires |mns| > 0 && |mns[0]| > 0 && |fs| == |mns| - 1 && f !in taken
    requires AllNonEmpty(mns[1..])
    requires forall i :: 0 <= i < |fs| ==> fs[i] !in taken + {f}
    requires forall i, j :: 0 <= i < j < |fs| ==> fs[i] != fs[j]
    ensures AllNonEmpty(mns)
    ensures forall i :: 0 <= i < |mns| ==> ([f] + fs)[i] !in taken
    ensures forall i, j :: 0 <= i < j < |mns| ==> ([f] + fs)[i] != ([f] + fs)[j]
  {
    assert forall i :: 1 <= i < |mns| ==> mns[i] == mns[1..][i - 1];
  }

  /** Every option gets a flag when no mnemonic is empty and fewer than 58 characters are taken in all. */
  lemma {:induction false} FlagsAssigned(mns: seq<string>, taken: set<char>)
    requires AllNonEmpty(mns)
    requires |mns| + |taken| <= 58
    ensures AssignFlags(mns, taken).Some?
    decreases |mns|
  {
    if |mns| > 0 {
      var k := FreeLetter(taken);
      PickFinds(mns[0][0], taken, k);
      var f := PickFlag(mns[0][0], taken).value;
      assert |taken + {f}| == |taken| + 1;
      assert AllNonEmpty(mns[1..]) by {
        assert forall i :: 0 <= i < |mns| - 1 ==> mns[1..][i] == mns[i + 1];
      }
      FlagsAssigned(mns[1..], taken + {f});
    }
  }

  datatype OptKind = OptUinteger | OptU64

  /** One `OPT_UINTEGER` / `OPT_U64` entry: flag, long name, storage and help text. */
  datatype Opt = Opt(kind: OptKind, flag: char, long: string, help: string)

  /** The `<NAME>_OPTIONS()` macro: not defined, defined with its entries, or never produced. */
  datatype OptionsDef = NoOptions | Options(opts: seq<Opt>) | Fails

  function Mnemonics(ps: seq<Param>): (r: seq<string>)
    ensures |r| == |ps| && forall i :: 0 <= i < |ps| ==> r[i] == ps[i].mn
  {
    seq(|ps|, i requires 0 <= i < |ps| => ps[i].mn)
  }

  /**
   * `generate_def_options` with the flag loop starting from `taken`:
   * nothing without `params_used`; else one option per exposed input
   * parameter, `OPT_UINTEGER` up to four bytes and `OPT_U64` above.
   */
  function OptionsFrom(ipl: Payload, taken: set<char>): (r: OptionsDef)
    ensures r.NoOptions? <==> !ipl.paramsUsed
    ensures r.Options? ==> |r.opts| == |UserParams(ipl.params)|
    ensures r.Options? ==> forall i :: 0 <= i < |r.opts| ==> r.opts[i].flag !in taken
    ensures r.Options? ==> forall i, j :: 0 <= i < j < |r.opts| ==> r.opts[i].flag != r.opts[j].flag
  {
    if !ipl.paramsUsed then NoOptions
    else
      var us := UserParams(ipl.params);
      match AssignFlags(Mnemonics(us), taken)
      case None => Fails
      case Some(fs) =>
        Options(seq(|us|, i requires 0 <= i < |us| => Opt(if us[i].size < 5 then OptUinteger else OptU64, fs[i], us[i].mn, us[i].name)))
  }

  /** `generate_def_options` as written: the flag loop starts from no taken flags at all. */
  function OptionsAsWritten(ipl: Payload): (r: OptionsDef)
    ensures r.Options? ==> forall i, j :: 0 <= i < j < |r.opts| ==> r.opts[i].flag != r.opts[j].flag
  {
    OptionsFrom(ipl, {})
  }

  /**
   * The options as written are never produced exactly when the flag loop
   * stops short: an exposed mnemonic is empty, so `mn[0]` raises, or the
   * walk finds every flag taken and never ends. With no empty mnemonic
   * and at most 58 exposed parameters they always are.
   */
  lemma OptionsAsWrittenFail(ipl: Payload)
    ensures OptionsAsWritten(ipl).Fails? <==> ipl.paramsUsed && AssignFlags(Mnemonics(UserParams(ipl.params)), {}).None?
    ensures ipl.paramsUsed && !AllNonEmpty(Mnemonics(UserParams(ipl.params))) ==> OptionsAsWritten(ipl).Fails?
    ensures ipl.paramsUsed && AllNonEmpty(Mnemonics(UserParams(ipl.params))) && |UserParams(ipl.params)| <= 58 ==>
              OptionsAsWritten(ipl).Options?
  {
    var mns := Mnemonics(UserParams(ipl.params));
    if ipl.paramsUsed && AllNonEmpty(mns) && |mns| <= 58 {
      FlagsAssigned(mns, {});
    }
  }

  /**
   * The corrected options: the loop starts with the base option's 'v'
   * taken, so every flag of a command is its own, 'v' included.
   */
  function DefOptions(ipl: Payload): (r: OptionsDef)
    ensures r.Options? ==> forall i :: 0 <= i < |r.opts| ==> r.opts[i].flag != BASE_FLAG
    ensures r.Options? ==> forall i, j :: 0 <= i < j < |r.opts| ==> r.opts[i].flag != r.opts[j].flag
  {
    OptionsFrom(ipl, {BASE_FLAG})
  }

  /**
   * An input parameter named "vdd_bias" (as the lane-adaptation command
   * has) gets the flag 'v' as written, the flag of `verbose` in the same
   * table; the corrected loop moves it to 'w'.
   */
  lemma VerboseClash()
    ensures var ipl := Payload("", "", Fixed(1), true, true, true, [Param("vdd bias", "vdd_bias", 1, 0, Scalar(U8), Hex, [], false)]);
            OptionsAsWritten(ipl) == Options([Opt(OptUinteger, BASE_FLAG, "vdd_bias", "vdd bias")])
            && DefOptions(ipl) == Options([Opt(OptUinteger, 'w', "vdd_bias", "vdd bias")])
  {
    var p := Param("vdd bias", "vdd_bias", 1, 0, Scalar(U8), Hex, [], false);
    var ipl := Payload("", "", Fixed(1), true, true, true, [p]);
    assert "vdd_bias"[..4] == "vdd_";
    assert !IsRsvd(p.mn);
    assert ipl.params[1..] == [];
    assert UserParams(ipl.params) == [p];
    assert Mnemonics([p]) == ["vdd_bias"];
    var mns := ["vdd_bias"];
    assert mns[0][0] == 'v' && mns[1..] == [] && |mns[0]| != 0;
    assert PickFlag(mns[0][0], {}) == Some('v');
    assert AssignFlags(mns[1..], {} + {'v'}) == Some([]);
    assert ['v'] + [] == ['v'];
    assert AssignFlags(mns, {}) == Some(['v']);
    assert NextFlag('v') == 'w';
    assert PickFlag(mns[0][0], {'v'}) == NextFree('w', {'v'}, 121) == Some('w');
    assert AssignFlags(mns[1..], {'v'} + {'w'}) == Some([]);
    assert ['w'] + [] == ['w'];
    assert AssignFlags(mns, {BASE_FLAG}) == Some(['w']);
  }

  /** With no empty mnemonic and at most 57 exposed parameters, the corrected options are always produced. */
  lemma OptionsProduced(ipl: Payload)
    requires ipl.paramsUsed
    requires AllNonEmpty(Mnemonics(UserParams(ipl.params)))
    requires |UserParams(ipl.params)| <= 57
    ensures DefOptions(ipl).Options?
  {
    FlagsAssigned(Mnemonics(UserParams(ipl.params)), {BASE_FLAG});
  }

  /** Taking one more character the walk never stops at changes nothing. */
  lemma {:induction false} NextFreeAvoids(c: char, taken: set<char>, fuel: nat, x: char)
    requires NextFree(c, taken, fuel).Some? && NextFree(c, taken, fuel).value != x && x !in taken
    ensures NextFree(c, taken + {x}, fuel) == NextFree(c, taken, fuel)
    decreases fuel
  {
    if c in taken {
      NextFreeAvoids(NextFlag(c), taken, fuel - 1, x);
    }
  }

  /** Flags assigned without ever choosing `x` are assigned alike when `x` is taken from the start. */
  lemma {:induction false} AssignAvoids(mns: seq<string>, taken: set<char>, x: char)
    requires AssignFlags(mns, taken).Some? && x !in taken
    requires forall i :: 0 <= i < |mns| ==> AssignFlags(mns, taken).value[i] != x
    ensures AssignFlags(mns, taken + {x}) == AssignFlags(mns, taken)
    decreases |mns|
  {
    if |mns| > 0 {
      var fs := AssignFlags(mns, taken).value;
      var f := PickFlag(mns[0][0], taken).value;
      var rest := AssignFlags(mns[1..], taken + {f}).value;
      assert fs == [f] + rest;
      assert f == fs[0];
      NextFreeAvoids(mns[0][0], taken, 122, x);
      assert taken + {x} + {f} == taken + {f} + {x};
      forall i | 0 <= i < |mns[1..]|
        ensures rest[i] != x
      {
        assert rest[i] == fs[i + 1];
      }
      AssignAvoids(mns[1..], taken + {f}, x);
    }
  }

  /**
   * Where the options as written hand out no 'v', they are exactly the
   * corrected options; only a 'v' makes the two differ.
   */
  lemma OptionsAgree(ipl: Payload)
    requires OptionsAsWritten(ipl).Options?
    requires forall i :: 0 <= i < |OptionsAsWritten(ipl).opts| ==> OptionsAsWritten(ipl).opts[i].flag != BASE_FLAG
    ensures DefOptions(ipl) == OptionsAsWritten(ipl)
  {
    var us := UserParams(ipl.params);
    var fs := AssignFlags(Mnemonics(us), {}).value;
    var opts := OptionsAsWritten(ipl).opts;
    forall i | 0 <= i < |fs|
      ensures fs[i] != BASE_FLAG
    {
      assert opts[i].flag == fs[i];
    }
    AssignAvoids(Mnemonics(us), {}, BASE_FLAG);
    assert {} + {BASE_FLAG} == {BASE_FLAG};
  }

  /**
   * Each option names the struct member it fills, and is an
   * `OPT_UINTEGER` exactly when that member is a `u32`.
   */
  lemma OptionsMatchStruct(ipl: Payload, taken: set<char>)
    requires OptionsFrom(ipl, taken).Options?
    ensures var opts := OptionsFrom(ipl, taken).opts;
            var members := ParamStruct(ipl);
            |opts| == |members| - 1 &&
            forall i :: 0 <= i < |opts| ==> opts[i].long == members[i].name && (opts[i].kind == OptUinteger <==> members[i].storage == U32)
  {
  }

  /**
   * `params_used` tests for the exact name "rsvd" and the filter for
   * "rsvd" followed by digits, so a payload whose one parameter is
   * "rsvd1" defines an options macro with no option in it.
   */
  lemma NumberedReservedOnly()
    ensures var raw := RawPayload("", "", Fixed(4), [RawParam("Reserved", "rsvd1", 4, 0, 0, [], false)]);
            var p := NewPayload(raw);
            p.Some? && p.value.paramsUsed && DefOptions(p.value) == Options([])
  {
    var p := ReservedPayload();
    ReservedFiltered(p.params);
    assert Mnemonics([]) == [];
  }

  lemma ReservedPayload() returns (p: Payload)
    ensures NewPayload(RawPayload("", "", Fixed(4), [RawParam("Reserved", "rsvd1", 4, 0, 0, [], false)])) == Some(p)
    ensures p.paramsUsed && |p.params| == 1 && p.params[0].mn == "rsvd1"
  {
    var rp := RawParam("Reserved", "rsvd1", 4, 0, 0, [], false);
    var raw := RawPayload("", "", Fixed(4), [rp]);
    OnlyParamNamed(rp);
    PayloadBuilt(raw);
    assert Lower(raw.params[0].mn) != "rsvd";
    p := NewPayload(raw).value;
    assert p.params[0] == MakeParam(rp, "rsvd1").value;
  }

  lemma OnlyParamNamed(rp: RawParam)
    requires rp.mn == "rsvd1" && rp.unit == 0
    ensures Lower(rp.mn) == "rsvd1"
    ensures NamesAsWritten([rp]) == ["rsvd1"]
  {
    assert Lower(rp.mn) == "rsvd1";
    assert [rp][1..] == [];
  }

  lemma ReservedFiltered(ps: seq<Param>)
    requires |ps| == 1 && ps[0].mn == "rsvd1"
    ensures UserParams(ps) == []
  {
    assert "rsvd1"[..4] == "rsvd" && '0' <= "rsvd1"[4] <= '9';
    assert IsRsvd(ps[0].mn);
    assert ps[1..] == [];
  }

  /** An entry of `cmd_<name>_options[]`. */
  datatype OptionRef = BaseOptions | ParamOptions | OptEnd

  /** `generate_option_struct`: the base options, the parameter options when `params_used`, then the end marker. */
  function OptionStruct(ipl: Payload): (r: seq<OptionRef>)
    ensures |r| >= 2 && r[0] == BaseOptions && r[|r| - 1] == OptEnd
  {
    [BaseOptions] + (if ipl.paramsUsed then [ParamOptions] else []) + [OptEnd]
  }

  /** The option table refers to the options macro exactly when that macro is defined. */
  lemma OptionTableUsesDefinedMacro(ipl: Payload)
    ensures ParamOptions in OptionStruct(ipl) <==> !DefOptions(ipl).NoOptions?
  {
  }

  // ---------------------------------------------------------------------
  // The library function: prototype and call
  // ---------------------------------------------------------------------

  /** One argument of `cxl_memdev_<name>`: a host-typed value, or a pointer for an array. */
  datatype Arg = Arg(name: string, host: string, pointer: bool)

  /** The prototype of `generate_libcxl_h`, also the head of the exported definition. */
  function Prototype(ipl: Payload): (r: seq<Arg>)
    ensures |r| == |UserParams(ipl.params)|
    ensures forall i :: 0 <= i < |r| ==> r[i].host == HostType(Elem(UserParams(ipl.params)[i].shape))
  {
    var us := UserParams(ipl.params);
    seq(|us|, i requires 0 <= i < |us| => Arg(us[i].mn, HostType(Elem(us[i].shape)), us[i].shape.Array?))
  }

  /** One argument of the call in `action_cmd_<name>`: a struct member, cast to `void *` for an array. */
  datatype CallArg = CallArg(member: string, cast: bool)

  /** `generate_action_cmd`: the exposed parameters' struct members, in order. */
  function ActionCall(ipl: Payload): (r: seq<CallArg>)
    ensures |r| == |UserParams(ipl.params)|
  {
    var us := UserParams(ipl.params);
    seq(|us|, i requires 0 <= i < |us| => CallArg(us[i].mn, us[i].shape.Array?))
  }

  /**
   * The command passes one argument per parameter of the prototype, the
   * member of the same name, cast to a pointer exactly where the
   * prototype takes one; and each of those members exists in the
   * parameter struct.
   */
  lemma CallMatchesPrototype(ipl: Payload)
    ensures var call := ActionCall(ipl);
            var proto := Prototype(ipl);
            |call| == |proto| && forall i :: 0 <= i < |call| ==> call[i].member == proto[i].name && call[i].cast == proto[i].pointer
    ensures var call := ActionCall(ipl);
            var members := ParamStruct(ipl);
            forall i :: 0 <= i < |call| ==> call[i].member == members[i].name
  {
  }

  // ---------------------------------------------------------------------
  // Command-info macros and mailbox structs
  // ---------------------------------------------------------------------

  /** The macros of `generate_mem_cmd_info`. */
  datatype Define = CommandId | Opcode(value: int) | InSize(n: nat) | OutSize(n: nat)

  /** Python truth of a size: present and not zero. */
  predicate SizeTruthy(s: SizeField)
  {
    s.Fixed? && s.n > 0
  }

  /** `generate_mem_cmd_info`: the id and opcode, then a size macro for each payload with a non-zero size. */
  function MemCmdInfo(opcode: int, ipl: Payload, opl: Payload): (r: seq<Define>)
    ensures |r| >= 2 && r[..2] == [CommandId, Opcode(opcode)]
  {
    [CommandId, Opcode(opcode)]
      + (if SizeTruthy(ipl.size) then [InSize(ipl.size.n)] else [])
      + (if SizeTruthy(opl.size) then [OutSize(opl.size.n)] else [])
  }

  /** An input-size macro is defined exactly for a present, non-zero input size, with that size; likewise for the output. */
  lemma SizeMacros(opcode: int, ipl: Payload, opl: Payload)
    ensures forall n: nat :: InSize(n) in MemCmdInfo(opcode, ipl, opl) <==> ipl.size == Fixed(n) && n > 0
    ensures forall n: nat :: OutSize(n) in MemCmdInfo(opcode, ipl, opl) <==> opl.size == Fixed(n) && n > 0
  {
    var r := MemCmdInfo(opcode, ipl, opl);
    forall n: nat
      ensures InSize(n) in r <==> ipl.size == Fixed(n) && n > 0
      ensures OutSize(n) in r <==> opl.size == Fixed(n) && n > 0
    {
      if InSize(n) in r {
        var k :| 0 <= k < |r| && r[k] == InSize(n);
      }
      if OutSize(n) in r {
        var k :| 0 <= k < |r| && r[k] == OutSize(n);
      }
    }
  }

  /** One member declaration of a packed mailbox struct (`Payload.declaration`). */
  datatype Decl = Decl(t: Token, name: string, count: Option<nat>)

  function DeclBytes(d: Decl): nat
  {
    match d.count
    case None => Width(d.t)
    case Some(n) => Width(d.t) * n
  }

  function Declaration(p: Param): (r: Decl)
    ensures r.name == p.mn && DeclBytes(r) == ShapeBytes(p.shape)
  {
    match p.shape
    case Scalar(t) => Decl(t, p.mn, None)
    case Array(t, n) => Decl(t, p.mn, Some(n))
  }

  /** `generate_mbox`: no struct for a payload without parameters, else every parameter, reserved ones included. */
  function Mbox(p: Payload): (r: Option<seq<Decl>>)
    ensures r.None? <==> |p.params| == 0
    ensures r.Some? ==> |r.value| == |p.params| && forall i :: 0 <= i < |p.params| ==> r.value[i].name == p.params[i].mn
  {
    if |p.params| == 0 then None
    else Some(seq(|p.params|, i requires 0 <= i < |p.params| => Declaration(p.params[i])))
  }

  function TotalBytes(ds: seq<Decl>): nat
    decreases |ds|
  {
    if |ds| == 0 then 0 else DeclBytes(ds[0]) + TotalBytes(ds[1..])
  }

  /** Parameters laid end to end from `start`, the last ending at `end`. */
  predicate Tiles(ps: seq<Param>, start: nat, end: nat)
    decreases |ps|
  {
    if |ps| == 0 then start == end
    else ps[0].offset == start && Tiles(ps[1..], start + ps[0].size, end)
  }

  lemma {:induction false} TilesBytes(ps: seq<Param>, ds: seq<Decl>, start: nat, end: nat)
    requires Tiles(ps, start, end)
    requires |ds| == |ps| && forall i :: 0 <= i < |ps| ==> ds[i] == Declaration(ps[i])
    requires forall i :: 0 <= i < |ps| ==> ShapeBytes(ps[i].shape) == ps[i].size
    ensures TotalBytes(ds) == end - start
    decreases |ps|
  {
    if |ps| > 0 {
      assert forall i :: 0 <= i < |ps| - 1 ==> ps[1..][i] == ps[i + 1] && ds[1..][i] == ds[i + 1];
      TilesBytes(ps[1..], ds[1..], start + ps[0].size, end);
    }
  }

  /**
   * When the parameters tile the payload and each one's type covers its
   * bytes, the packed mailbox struct is exactly the payload's size.
   */
  lemma MboxMatchesSize(p: Payload)
    requires p.size.Fixed? && |p.params| > 0
    requires Tiles(p.params, 0, p.size.n)
    requires forall i :: 0 <= i < |p.params| ==> ShapeBytes(p.params[i].shape) == p.params[i].size
    ensures TotalBytes(Mbox(p).value) == p.size.n
  {
    TilesBytes(p.params, Mbox(p).value, 0, p.size.n);
  }

  // ---------------------------------------------------------------------
  // The exported library function
  // ---------------------------------------------------------------------

  /** One store into the input payload: a converted value, or a loop over an array. */
  datatype Assign = Assign(name: string, conv: EndianConv, count: Option<nat>)

  /** One printed output field. */
  datatype PrintLine =
    | PrintScalar(caption: string, format: Format, conv: EndianConv, name: string)
    | PrintEnum(caption: string, name: string)
    | PrintArray(caption: string, name: string, format: Format, conv: EndianConv, count: nat, contiguous: bool)

  /** The parts of `generate_cxl_export` that depend on the payloads. */
  datatype Export = Export(
    args: seq<Arg>,
    descriptions: seq<(string, seq<string>)>,
    queryDecls: bool,
    outDecl: bool,
    assigns: seq<Assign>,
    heading: Option<string>,
    prints: seq<PrintLine>)

  function StoreOf(p: Param): Assign
  {
    match p.shape
    case Scalar(t) => Assign(p.mn, Conversion(t), None)
    case Array(t, n) => Assign(p.mn, Conversion(t), Some(n))
  }

  function PrintOf(p: Param): PrintLine
  {
    match p.shape
    case Scalar(t) => if |p.enums| == 0 then PrintScalar(p.name, p.format, Conversion(t), p.mn) else PrintEnum(p.name, p.mn)
    case Array(t, n) => PrintArray(p.name, p.mn, p.format, Conversion(t), n, p.contiguous)
  }

  function EnumNames(es: seq<Enumerator>): (r: seq<string>)
    ensures |r| == |es| && forall i :: 0 <= i < |es| ==> r[i] == es[i].name
  {
    seq(|es|, i requires 0 <= i < |es| => es[i].name)
  }

  /** The `<mn>_descriptions` arrays: one per output parameter with enumerators, reserved ones included. */
  function Descriptions(ps: seq<Param>): (r: seq<(string, seq<string>)>)
    ensures |r| <= |ps|
    decreases |ps|
  {
    if |ps| == 0 then []
    else (if |ps[0].enums| > 0 then [(ps[0].mn, EnumNames(ps[0].enums))] else []) + Descriptions(ps[1..])
  }

  /**
   * `generate_cxl_export`: the prototype, the description arrays, the
   * query and input declarations when `params_used`, the output pointer
   * when the output has parameters, the input stores when `params_used`,
   * and, when the output has parameters, the heading and one print per
   * exposed output parameter.
   */
  function CxlExport(ipl: Payload, opl: Payload, fullname: string): (r: Export)
    ensures r.args == Prototype(ipl)
    ensures r.queryDecls == ipl.paramsUsed && r.outDecl == (|opl.params| > 0)
    ensures |r.assigns| == if ipl.paramsUsed then |UserParams(ipl.params)| else 0
    ensures r.heading.Some? <==> |opl.params| > 0
    ensures |r.prints| == if |opl.params| > 0 then |UserParams(opl.params)| else 0
  {
    var ins := UserParams(ipl.params);
    var outs := UserParams(opl.params);
    Export(
      Prototype(ipl),
      Descriptions(opl.params),
      ipl.paramsUsed,
      |opl.params| > 0,
      if ipl.paramsUsed then seq(|ins|, i requires 0 <= i < |ins| => StoreOf(ins[i])) else [],
      if |opl.params| > 0 then Some(Heading(fullname)) else None,
      if |opl.params| > 0 then seq(|outs|, i requires 0 <= i < |outs| => PrintOf(outs[i])) else [])
  }

  /**
   * Every store converts to the little-endian width of its parameter's
   * storage and covers an array element by element; every print of a
   * scalar converts back with the same width and uses `%s` only with
   * enumerators.
   */
  lemma ExportConversions(ipl: Payload, opl: Payload, fullname: string)
    ensures var e := CxlExport(ipl, opl, fullname);
            var ins := UserParams(ipl.params);
            forall i :: 0 <= i < |e.assigns| ==>
              e.assigns[i].name == ins[i].mn &&
              e.assigns[i].conv == Conversion(Elem(ins[i].shape)) &&
              (e.assigns[i].count.Some? <==> ins[i].shape.Array?)
    ensures var e := CxlExport(ipl, opl, fullname);
            var outs := UserParams(opl.params);
            forall i :: 0 <= i < |e.prints| ==>
              (e.prints[i].PrintEnum? <==> outs[i].shape.Scalar? && |outs[i].enums| > 0) &&
              (e.prints[i].PrintScalar? ==> e.prints[i].conv == Conversion(Elem(outs[i].shape)))
  {
  }

  /**
   * The generated code prints an enumerated field as
   * `descriptions[value]`, indexing the sorted names by the raw value:
   * this names the enumerator of that value when the values are
   * 0, 1, 2, … in order.
   */
  lemma DescriptionByValue(es: seq<Enumerator>)
    requires forall i :: 0 <= i < |es| ==> es[i].value == i
    ensures forall i :: 0 <= i < |es| ==> 0 <= es[i].value < |EnumNames(es)| && EnumNames(es)[es[i].value] == es[i].name
  {
  }

  /**
   * The C expression `descriptions[value]` of the generated print: the
   * name at that position, `None` for an index outside the array (a read
   * past it).
   */
  function DescribeAsWritten(names: seq<string>, v: int): (r: Option<string>)
    ensures r.Some? <==> 0 <= v < |names|
    ensures r.Some? ==> r.value == names[v]
  {
    if 0 <= v < |names| then Some(names[v]) else None
  }

  /**
   * What the print means to show: the name of the enumerator whose value
   * the field holds, `None` for a value no enumerator has.
   */
  function Describe(es: seq<Enumerator>, v: int): (r: Option<string>)
    ensures r.Some? <==> exists i :: 0 <= i < |es| && es[i].value == v
    ensures r.Some? ==> exists i :: 0 <= i < |es| && es[i].value == v && es[i].name == r.value
    decreases |es|
  {
    if |es| == 0 then None
    else if es[0].value == v then Some(es[0].name)
    else
      var r := Describe(es[1..], v);
      assert forall i :: 1 <= i < |es| ==> es[i] == es[1..][i - 1];
      assert r.Some? ==> es[1..][0].value == v || exists i :: 1 <= i < |es[1..]| && es[1..][i].value == v;
      r
  }

  predicate DistinctNames(es: seq<Enumerator>)
  {
    forall i, j :: 0 <= i < j < |es| ==> es[i].name != es[j].name
  }

  /**
   * With distinct names, indexing by the raw value prints every
   * enumerator's own name exactly when the values are 0, 1, 2, … in
   * order; any other value gives another enumerator's name or reads past
   * the array.
   */
  lemma DescriptionIndexIff(es: seq<Enumerator>)
    requires DistinctNames(es)
    ensures (forall i :: 0 <= i < |es| ==> DescribeAsWritten(EnumNames(es), es[i].value) == Some(es[i].name))
            <==> (forall i :: 0 <= i < |es| ==> es[i].value == i)
  {
    var names := EnumNames(es);
    if forall i :: 0 <= i < |es| ==> DescribeAsWritten(names, es[i].value) == Some(es[i].name) {
      forall i | 0 <= i < |es|
        ensures es[i].value == i
      {
        var v := es[i].value;
        assert DescribeAsWritten(names, v) == Some(es[i].name);
        assert es[v].name == es[i].name;
      }
    }
  }

  /** Where the values are 0, 1, 2, … in order, the print as written shows what it means to for every value. */
  lemma {:induction false} DescribesAgree(es: seq<Enumerator>, v: int)
    requires forall i :: 0 <= i < |es| ==> es[i].value == i
    ensures DescribeAsWritten(EnumNames(es), v) == Describe(es, v)
  {
    if 0 <= v < |es| {
      DescribeFirst(es, v);
    } else {
      assert forall i :: 0 <= i < |es| ==> es[i].value != v;
    }
  }

  /** `Describe` finds the first enumerator of the value. */
  lemma {:induction false} DescribeFirst(es: seq<Enumerator>, k: nat)
    requires k < |es| && forall i :: 0 <= i < k ==> es[i].value != es[k].value
    ensures Describe(es, es[k].value) == Some(es[k].name)
    decreases k
  {
    if k > 0 {
      assert es[1..][k - 1] == es[k];
      DescribeFirst(es[1..], k - 1);
    }
  }

  /**
   * With values 1 and 2 the indexing is off by one: value 1 prints the
   * name of value 2, and value 2 reads past the two-entry array, where
   * each should print its own enumerator's name.
   */
  lemma DescriptionShifted()
    ensures var es := [Enumerator(1, "one", "a"), Enumerator(2, "two", "b")];
            DescribeAsWritten(EnumNames(es), 1) == Some("two") && DescribeAsWritten(EnumNames(es), 2).None? &&
            Describe(es, 1) == Some("one") && Describe(es, 2) == Some("two")
  {
    var es := [Enumerator(1, "one", "a"), Enumerator(2, "two", "b")];
    assert es[1..][0] == Enumerator(2, "two", "b");
  }

  // ---------------------------------------------------------------------
  // The output heading
  // ---------------------------------------------------------------------

  /** `n * c` in Python: empty for a count of zero or less. */
  function Repeat(c: char, n: int): (r: string)
    ensures |r| == if n > 0 then n else 0
    ensures forall k :: 0 <= k < |r| ==> r[k] == c
    decreases if n > 0 then n else 0
  {
    if n <= 0 then "" else [c] + Repeat(c, n - 1)
  }

  /** The `=` run before the name. */
  function HeadingLeft(fullname: string): int
  {
    (78 - |fullname|) / 2
  }

  /**
   * The heading printed above a command's output: the name between
   * spaces, with `=` to the left, then `=` to column 80.
   */
  function Heading(fullname: string): (r: string)
  {
    var left := Repeat('=', HeadingLeft(fullname)) + " " + fullname + " ";
    left + Repeat('=', 80 - |left|)
  }

  /**
   * A heading is 80 columns wide, or the name and its two spaces when
   * longer; a name of up to 78 characters sits in the middle, the `=`
   * run on its right as long as the one on its left or one longer.
   */
  lemma HeadingShape(fullname: string)
    ensures var r := Heading(fullname);
            |r| == if |fullname| + 2 > 80 then |fullname| + 2 else 80
    ensures |fullname| <= 78 ==>
              var r := Heading(fullname);
              var left := HeadingLeft(fullname);
              var right := 80 - left - |fullname| - 2;
              r == Repeat('=', left) + " " + fullname + " " + Repeat('=', right) && (right == left || right == left + 1)
    ensures |fullname| > 78 ==> Heading(fullname) == " " + fullname + " "
  {
    var left := Repeat('=', HeadingLeft(fullname)) + " " + fullname + " ";
    if |fullname| > 78 {
      assert HeadingLeft(fullname) < 0;
      assert left == " " + fullname + " ";
    }
  }
}

/**
 * The schema side of the CXL vendor-command generator: how one mailbox
 * payload of the command schema (input or output) becomes a list of
 * parameter records, each with a C storage shape, a printf format, its
 * enumerators in value order and a member name that is unique in the
 * payload.
 */
module CligenPayload {
  import opened Wrappers
  import opened CStr

  // ---------------------------------------------------------------------
  // Storage tokens and C types
  // ---------------------------------------------------------------------

  /** The little-endian storage types of the generated mailbox structs. */
  datatype Token = U8 | Le16 | Le32 | Le64

  /** Bytes taken by one value of a token. */
  function Width(t: Token): nat
  {
    match t
    case U8 => 1
    case Le16 => 2
    case Le32 => 4
    case Le64 => 8
  }

  /** The token as the C source spells it. */
  function TokenName(t: Token): string
  {
    match t
    case U8 => "u8"
    case Le16 => "__le16"
    case Le32 => "__le32"
    case Le64 => "__le64"
  }

  /**
   * `re.sub(pat, rep, s)` for a literal pattern: every occurrence, found
   * left to right without overlap, is replaced.
   */
  function Sub(s: string, pat: string, rep: string): string
    requires |pat| > 0
    decreases |s|
  {
    if |s| < |pat| then s
    else if s[..|pat|] == pat then rep + Sub(s[|pat|..], pat, rep)
    else [s[0]] + Sub(s[1..], pat, rep)
  }

  lemma {:induction false} SubCharAbsent(s: string, c: char, rep: string)
    requires c !in s
    ensures Sub(s, [c], rep) == s
    decreases |s|
  {
    if |s| > 0 {
      assert s[..1] == [s[0]];
      SubCharAbsent(s[1..], c, rep);
      assert s == [s[0]] + s[1..];
    }
  }

  /** Replacing one character by another rewrites each occurrence in place. */
  lemma {:induction false} SubChar(s: string, a: char, b: char)
    ensures |Sub(s, [a], [b])| == |s|
    ensures forall i :: 0 <= i < |s| ==> Sub(s, [a], [b])[i] == if s[i] == a then b else s[i]
    ensures a != b ==> a !in Sub(s, [a], [b])
    decreases |s|
  {
    if |s| > 0 {
      assert s[..1] == [s[0]];
      SubChar(s[1..], a, b);
    }
  }

  /** Replacing in a string that starts with the pattern. */
  lemma SubLeading(p: string, s: string, rep: string)
    requires |p| > 0
    ensures Sub(p + s, p, rep) == rep + Sub(s, p, rep)
  {
    assert (p + s)[..|p|] == p;
    assert (p + s)[|p|..] == s;
  }

  lemma TwoDigits(n: nat)
    requires 10 <= n < 100
    ensures Decimal(n) == [('0' as int + n / 10) as char, ('0' as int + n % 10) as char]
  {
    assert Decimal(n / 10) == [('0' as int + n / 10) as char];
  }

  lemma TokenSubs(t: Token)
    ensures Sub(TokenName(t), "__le", "u") == "u" + Decimal(8 * Width(t))
    ensures Sub(TokenName(t), "_", "") == if t == U8 then "u8" else "le" + Decimal(8 * Width(t))
  {
    if t == U8 {
      SubCharAbsent("u8", '_', "");
      assert Decimal(8) == "8";
    } else {
      var d := Decimal(8 * Width(t));
      TwoDigits(8 * Width(t));
      assert d == if t == Le16 then "16" else if t == Le32 then "32" else "64";
      assert TokenName(t) == "__le" + d;
      LeSubs(d);
    }
  }

  lemma LeSpelling()
    ensures "_" + "_le" == "__le" && "_" + "le" == "_le"
  {
  }

  lemma ConcatAssoc(a: string, b: string, c: string)
    ensures a + (b + c) == (a + b) + c
  {
  }

  /** The two rewrites applied to `__le` followed by a short suffix without underscores. */
  lemma LeSubs(d: string)
    requires |d| < 4 && '_' !in d
    ensures Sub("__le" + d, "__le", "u") == "u" + d
    ensures Sub("__le" + d, "_", "") == "le" + d
  {
    SubLeading("__le", d, "u");
    assert Sub(d, "__le", "u") == d;
    LeSpelling();
    ConcatAssoc("_", "_le", d);
    SubLeading("_", "_le" + d, "");
    ConcatAssoc("_", "le", d);
    SubLeading("_", "le" + d, "");
    SubCharAbsent("le" + d, '_', "");
  }

  /**
   * The host type of a token (`utype`): `__le` replaced by `u`, so each
   * token maps to the unsigned C type of the same number of bits.
   */
  function HostType(t: Token): (r: string)
    ensures r == "u" + Decimal(8 * Width(t))
  {
    TokenSubs(t);
    Sub(TokenName(t), "__le", "u")
  }

  /** How `to_cpu` and `cpu_to` convert a value: passed through, or byte-swapped with the helpers named after a stem. */
  datatype EndianConv = Plain | Swap(stem: string)

  /**
   * `to_cpu` and `cpu_to`: the token with its underscores removed names
   * the conversion helpers (`le16_to_cpu`, `cpu_to_le16`); `u8` needs none.
   * The stem therefore always names the token's own width.
   */
  function Conversion(t: Token): (r: EndianConv)
    ensures r.Plain? <==> Width(t) == 1
    ensures r.Swap? ==> r.stem == "le" + Decimal(8 * Width(t))
  {
    TokenSubs(t);
    var stem := Sub(TokenName(t), "_", "");
    if stem == "u8" then Plain else Swap(stem)
  }

  /** The `t` table of `types`: the token whose width is `n`, if any. */
  function TokenOfWidth(n: int): (r: Option<Token>)
    ensures r.Some? <==> n == 1 || n == 2 || n == 4 || n == 8
    ensures r.Some? ==> Width(r.value) == n
  {
    if n == 1 then Some(U8)
    else if n == 2 then Some(Le16)
    else if n == 4 then Some(Le32)
    else if n == 8 then Some(Le64)
    else None
  }

  /**
   * What `types` returns: a scalar token, or an (element, length) pair
   * whose element is `None` when a unit size has no token.
   */
  datatype Typed = ScalarOf(t: Token) | ArrayOf(elem: Option<Token>, count: nat)

  /**
   * `types`: with a unit size, an array of the unit's token holding the
   * whole units that fit; otherwise a scalar for the four token widths, or
   * an array of the widest token that divides the size, which then covers
   * the field exactly.
   */
  function Types(size: nat, unit: nat): (r: Typed)
    ensures unit > 0 ==> r.ArrayOf? && r.elem == TokenOfWidth(unit)
    ensures unit > 0 ==> r.count * unit <= size < (r.count + 1) * unit
    ensures unit == 0 ==> (r.ScalarOf? <==> TokenOfWidth(size).Some?)
    ensures r.ScalarOf? ==> Width(r.t) == size
    ensures unit == 0 && r.ArrayOf? ==> r.elem.Some? && Width(r.elem.value) * r.count == size
    ensures unit == 0 && r.ArrayOf? ==> forall w: Token :: Width(w) > Width(r.elem.value) ==> size % Width(w) != 0
  {
    if unit > 0 then
      DivBounds(size, unit);
      ArrayOf(TokenOfWidth(unit), size / unit)
    else if TokenOfWidth(size).Some? then ScalarOf(TokenOfWidth(size).value)
    else if size % 8 == 0 then ArrayOf(Some(Le64), size / 8)
    else if size % 4 == 0 then ArrayOf(Some(Le32), size / 4)
    else if size % 2 == 0 then ArrayOf(Some(Le16), size / 2)
    else ArrayOf(Some(U8), size)
  }

  lemma DivBounds(n: nat, d: nat)
    requires d > 0
    ensures (n / d) * d <= n < (n / d + 1) * d
  {
    var q := n / d;
    assert n == q * d + n % d;
    assert (q + 1) * d == q * d + d;
  }

  /** Worked cases of `types`: odd and non-power-of-two widths become arrays, and a unit that does not divide the size loses the remainder. */
  lemma TypesExamples()
    ensures Types(3, 0) == ArrayOf(Some(U8), 3)
    ensures Types(12, 0) == ArrayOf(Some(Le32), 3)
    ensures Types(16, 0) == ArrayOf(Some(Le64), 2)
    ensures Types(0, 0) == ArrayOf(Some(Le64), 0)
    ensures Types(6, 4) == ArrayOf(Some(Le32), 1)
    ensures Types(4, 3) == ArrayOf(None, 1)
  {
  }

  /** printf conversions used by the generated code: `%x`, `%lx`, `%s`. */
  datatype Format = Hex | LongHex | Str

  /** `get_format_specifier`: `%lx` for `__le64` and `%x` for every other token, an unknown one included. */
  function FormatSpecifier(t: Option<Token>): (r: Format)
    ensures r != Str
    ensures r == LongHex <==> t == Some(Le64)
  {
    match t
    case Some(Le64) => LongHex
    case _ => Hex
  }

  // ---------------------------------------------------------------------
  // Enumerators
  // ---------------------------------------------------------------------

  /** One named value of a parameter. */
  datatype Enumerator = Enumerator(value: int, name: string, mn: string)

  predicate SortedByValue(es: seq<Enumerator>)
  {
    forall i, j :: 0 <= i < j < |es| ==> es[i].value <= es[j].value
  }

  /** Inserts `e` before the first enumerator of a strictly greater value. */
  function InsertByValue(e: Enumerator, es: seq<Enumerator>): (r: seq<Enumerator>)
    requires SortedByValue(es)
    ensures SortedByValue(r)
    ensures multiset(r) == multiset(es) + multiset{e}
    ensures forall i :: 0 <= i < |r| ==> r[i] == e || r[i] in es
    decreases |es|, 1
  {
    if |es| == 0 || e.value < es[0].value then [e] + es
    else
      InsertStep(e, es);
      [es[0]] + InsertByValue(e, es[1..])
  }

  /** Inserting past the head keeps the head in front of the rest. */
  lemma InsertStep(e: Enumerator, es: seq<Enumerator>)
    requires SortedByValue(es) && |es| > 0 && es[0].value <= e.value
    ensures SortedByValue([es[0]] + InsertByValue(e, es[1..]))
    ensures multiset([es[0]] + InsertByValue(e, es[1..])) == multiset(es) + multiset{e}
    ensures forall x :: x in [es[0]] + InsertByValue(e, es[1..]) ==> x == e || x in es
    decreases |es|, 0
  {
    var rest := InsertByValue(e, es[1..]);
    assert es == [es[0]] + es[1..];
    HeadBound(e, es, rest);
    ConsSorted(es[0], rest);
  }

  /** What follows the head of a sorted sequence, with `e` inserted, is no smaller than the head. */
  lemma HeadBound(e: Enumerator, es: seq<Enumerator>, rest: seq<Enumerator>)
    requires SortedByValue(es) && |es| > 0 && es[0].value <= e.value
    requires forall i :: 0 <= i < |rest| ==> rest[i] == e || rest[i] in es[1..]
    ensures forall i :: 0 <= i < |rest| ==> es[0].value <= rest[i].value
  {
  }

  /** A sorted sequence stays sorted behind a head no greater than any of its values. */
  lemma ConsSorted(h: Enumerator, rest: seq<Enumerator>)
    requires SortedByValue(rest)
    requires forall i :: 0 <= i < |rest| ==> h.value <= rest[i].value
    ensures SortedByValue([h] + rest)
  {
  }

  /**
   * `param["enums"].sort(key=value)`: the enumerators in ascending value
   * order, each one kept; equal values stay in schema order, since each
   * later enumerator is inserted after the equal ones.
   */
  function SortByValue(es: seq<Enumerator>): (r: seq<Enumerator>)
    ensures SortedByValue(r)
    ensures multiset(r) == multiset(es)
    decreases |es|
  {
    if |es| == 0 then []
    else
      var init := es[..|es| - 1];
      assert es == init + [es[|es| - 1]];
      InsertByValue(es[|es| - 1], SortByValue(init))
  }

  // ---------------------------------------------------------------------
  // Names
  // ---------------------------------------------------------------------

  function LowerChar(c: char): char
  {
    if 'A' <= c <= 'Z' then (c as int + 32) as char else c
  }

  /** `str.lower()` on ASCII letters. */
  function Lower(s: string): (r: string)
    ensures |r| == |s|
    ensures forall i :: 0 <= i < |s| ==> r[i] == LowerChar(s[i])
  {
    seq(|s|, i requires 0 <= i < |s| => LowerChar(s[i]))
  }

  /** Lower-casing leaves no upper-case letter, so doing it twice changes nothing. */
  lemma LowerIdempotent(s: string)
    ensures forall i :: 0 <= i < |s| ==> !('A' <= Lower(s)[i] <= 'Z')
    ensures Lower(Lower(s)) == Lower(s)
  {
  }

  /** `re.match(r"^rsvd\d*$", mn)`: the reserved fields the generated CLI leaves out. */
  predicate IsRsvd(mn: string)
  {
    |mn| >= 4 && mn[..4] == "rsvd" && forall k :: 4 <= k < |mn| ==> '0' <= mn[k] <= '9'
  }

  /** Parameters as the schema gives them. */
  datatype RawParam = RawParam(name: string, mn: string, size: nat, offset: nat, unit: nat, enums: seq<Enumerator>, contiguous: bool)

  predicate Distinct(names: seq<string>)
  {
    forall i, j :: 0 <= i < j < |names| ==> names[i] != names[j]
  }

  /**
   * The names `build_params` gives the parameters, as written: the
   * lower-cased mnemonic, or, when that name is already taken, the
   * mnemonic with the byte offset appended; the appended name is taken
   * without a second check.
   */
  function NamesAsWrittenFrom(ps: seq<RawParam>, used: seq<string>): (r: seq<string>)
    ensures |r| == |ps|
    ensures forall i :: 0 <= i < |ps| ==> r[i] == Lower(ps[i].mn) || r[i] == Lower(ps[i].mn) + Decimal(ps[i].offset)
    decreases |ps|
  {
    if |ps| == 0 then []
    else
      var mn := Lower(ps[0].mn);
      var n := if mn in used then mn + Decimal(ps[0].offset) else mn;
      [n] + NamesAsWrittenFrom(ps[1..], used + [n])
  }

  function NamesAsWritten(ps: seq<RawParam>): (r: seq<string>)
    ensures |r| == |ps|
  {
    NamesAsWrittenFrom(ps, [])
  }

  /**
   * A schema on which the names as written collide: "a12" at offset 0,
   * then "a" twice, the second at offset 12, which is renamed to the
   * "a12" already taken. The generated struct would declare a member twice.
   */
  lemma RenamedNameCollides()
    ensures var ps := [RawParam("A12", "a12", 4, 0, 0, [], false),
                       RawParam("A", "a", 8, 4, 0, [], false),
                       RawParam("A again", "a", 4, 12, 0, [], false)];
            NamesAsWritten(ps) == ["a12", "a", "a12"] && !Distinct(NamesAsWritten(ps))
  {
    var ps := [RawParam("A12", "a12", 4, 0, 0, [], false),
               RawParam("A", "a", 8, 4, 0, [], false),
               RawParam("A again", "a", 4, 12, 0, [], false)];
    assert Lower("a12") == "a12";
    assert Lower("a") == "a";
    TwoDigits(12);
    assert Decimal(12) == "12";
    assert "a" !in ["a12"];
    assert "a" in ["a12", "a"];
    assert ps[1..][1..] == [ps[2]];
    assert NamesAsWrittenFrom([], ["a12", "a", "a12"]) == [];
    assert "a" + "12" == "a12";
    calc {
      NamesAsWritten(ps);
      ["a12"] + NamesAsWrittenFrom(ps[1..], ["a12"]);
      ["a12"] + (["a"] + NamesAsWrittenFrom(ps[1..][1..], ["a12", "a"]));
      ["a12"] + (["a"] + (["a" + "12"] + NamesAsWrittenFrom([], ["a12", "a", "a12"])));
      ["a12", "a", "a12"];
    }
    var r := NamesAsWritten(ps);
    assert r[0] == r[2];
  }

  function MaxLen(names: seq<string>): (m: nat)
    ensures forall s :: s in names ==> |s| <= m
    decreases |names|
  {
    if |names| == 0 then 0
    else
      var m := MaxLen(names[1..]);
      assert forall s :: s in names ==> s == names[0] || s in names[1..];
      if |names[0]| > m then |names[0]| else m
  }

  /** Appends `suffix` until the name is not among `names`. */
  function Unused(mn: string, suffix: string, names: seq<string>): (r: string)
    requires |suffix| > 0
    ensures r !in names
    ensures mn <= r
    ensures mn !in names ==> r == mn
    decreases MaxLen(names) - |mn|
  {
    if mn !in names then mn
    else
      var r := Unused(mn + suffix, suffix, names);
      assert mn <= mn + suffix;
      r
  }

  /**
   * The corrected naming: a taken name gets the byte offset appended
   * again until it is new, so no two parameters share a member name.
   */
  function NamesFrom(ps: seq<RawParam>, used: seq<string>): (r: seq<string>)
    ensures |r| == |ps|
    ensures forall i :: 0 <= i < |ps| ==> r[i] !in used && Lower(ps[i].mn) <= r[i]
    ensures Distinct(r)
    decreases |ps|
  {
    if |ps| == 0 then []
    else
      var n := Unused(Lower(ps[0].mn), Decimal(ps[0].offset), used);
      var rest := NamesFrom(ps[1..], used + [n]);
      NamesStep(ps, used, n, rest);
      [n] + rest
  }

  lemma NamesStep(ps: seq<RawParam>, used: seq<string>, n: string, rest: seq<string>)
    requires |ps| > 0 && |rest| == |ps| - 1
    requires n !in used && Lower(ps[0].mn) <= n
    requires forall i :: 0 <= i < |rest| ==> rest[i] !in used + [n] && Lower(ps[1..][i].mn) <= rest[i]
    requires Distinct(rest)
    ensures forall i :: 0 <= i < |ps| ==> ([n] + rest)[i] !in used && Lower(ps[i].mn) <= ([n] + rest)[i]
    ensures Distinct([n] + rest)
  {
    var r := [n] + rest;
    forall i | 1 <= i < |ps|
      ensures r[i] !in used && Lower(ps[i].mn) <= r[i] && r[i] != n
    {
      assert r[i] == rest[i - 1] && ps[i] == ps[1..][i - 1];
    }
  }

  function Names(ps: seq<RawParam>): (r: seq<string>)
    ensures |r| == |ps|
    ensures Distinct(r)
    ensures forall i :: 0 <= i < |ps| ==> Lower(ps[i].mn) <= r[i]
  {
    NamesFrom(ps, [])
  }

  /**
   * The correction changes nothing where the names as written are
   * already distinct: each mnemonic is renamed at most once, exactly as
   * before.
   */
  lemma {:induction false} NamesAgreeFrom(ps: seq<RawParam>, used: seq<string>)
    requires Distinct(used + NamesAsWrittenFrom(ps, used))
    ensures NamesFrom(ps, used) == NamesAsWrittenFrom(ps, used)
    decreases |ps|
  {
    if |ps| > 0 {
      var mn := Lower(ps[0].mn);
      var d := Decimal(ps[0].offset);
      var w := NamesAsWrittenFrom(ps, used);
      var n := if mn in used then mn + d else mn;
      var rest := NamesAsWrittenFrom(ps[1..], used + [n]);
      assert w == [n] + rest;
      DistinctHead(used, w);
      if mn in used {
        assert Unused(mn, d, used) == Unused(mn + d, d, used);
      }
      AppendAssoc(used, [n], rest);
      NamesAgreeFrom(ps[1..], used + [n]);
    }
  }

  lemma AppendAssoc(a: seq<string>, b: seq<string>, c: seq<string>)
    ensures a + (b + c) == (a + b) + c
  {
  }

  lemma DistinctHead(a: seq<string>, b: seq<string>)
    requires |b| > 0 && Distinct(a + b)
    ensures b[0] !in a
  {
    forall k | 0 <= k < |a|
      ensures a[k] != b[0]
    {
      assert (a + b)[k] == a[k] && (a + b)[|a|] == b[0];
    }
  }

  lemma NamesAgree(ps: seq<RawParam>)
    requires Distinct(NamesAsWritten(ps))
    ensures Names(ps) == NamesAsWritten(ps)
  {
    assert [] + NamesAsWrittenFrom(ps, []) == NamesAsWritten(ps);
    NamesAgreeFrom(ps, []);
  }

  // ---------------------------------------------------------------------
  // Parameters and payloads
  // ---------------------------------------------------------------------

  /** The storage of a parameter: one token, or an array of them. */
  datatype Shape = Scalar(t: Token) | Array(elem: Token, count: nat)

  function Elem(s: Shape): Token
  {
    match s
    case Scalar(t) => t
    case Array(t, _) => t
  }

  /** Bytes the declaration of a shape takes in a packed struct. */
  function ShapeBytes(s: Shape): nat
  {
    match s
    case Scalar(t) => Width(t)
    case Array(t, n) => Width(t) * n
  }

  /** A parameter record of `build_params`. */
  datatype Param = Param(name: string, mn: string, size: nat, offset: nat, shape: Shape, format: Format, enums: seq<Enumerator>, contiguous: bool)

  /**
   * One parameter of `build_params`: its type and, with no enumerators,
   * the format of that type, `%s` otherwise. Deriving the host type fails
   * (the generator raises) when a unit size has no token.
   */
  function MakeParam(raw: RawParam, mn: string): (r: Option<Param>)
    ensures r.None? <==> raw.unit > 0 && TokenOfWidth(raw.unit).None?
    ensures r.Some? ==> r.value.mn == mn && r.value.size == raw.size && r.value.offset == raw.offset
    ensures r.Some? ==> SortedByValue(r.value.enums) && multiset(r.value.enums) == multiset(raw.enums)
    ensures r.Some? ==> (r.value.format == Str <==> |raw.enums| > 0)
    ensures r.Some? ==> (r.value.format == LongHex <==> |raw.enums| == 0 && Elem(r.value.shape) == Le64)
    ensures r.Some? && raw.unit == 0 ==> ShapeBytes(r.value.shape) == raw.size
    ensures r.Some? && raw.unit > 0 ==> ShapeBytes(r.value.shape) <= raw.size < ShapeBytes(r.value.shape) + raw.unit
    ensures r.Some? && raw.unit == 0 ==> (r.value.shape.Scalar? <==> TokenOfWidth(raw.size).Some?)
  {
    var typed := Types(raw.size, raw.unit);
    var elem := if typed.ScalarOf? then Some(typed.t) else typed.elem;
    var format := if |raw.enums| > 0 then Str else FormatSpecifier(elem);
    match elem
    case None => None
    case Some(t) =>
      var shape := if typed.ScalarOf? then Scalar(t) else Array(t, typed.count);
      Some(Param(raw.name, mn, raw.size, raw.offset, shape, format, SortByValue(raw.enums), raw.contiguous))
  }

  /** The parameters of a payload, each under its name; `None` when any of them fails to build. */
  function MakeParams(ps: seq<RawParam>, names: seq<string>): (r: Option<seq<Param>>)
    requires |names| == |ps|
    ensures r.None? <==> exists i :: 0 <= i < |ps| && MakeParam(ps[i], names[i]).None?
    ensures r.Some? ==> |r.value| == |ps| && forall i :: 0 <= i < |ps| ==> Some(r.value[i]) == MakeParam(ps[i], names[i])
  {
    if exists i :: 0 <= i < |ps| && MakeParam(ps[i], names[i]).None? then None
    else Some(seq(|ps|, i requires 0 <= i < |ps| => MakeParam(ps[i], names[i]).value))
  }

  /** `ipl_size_bytes` / `opl_size_bytes`: absent, a byte count, or a text such as "variable". */
  datatype SizeField = Missing | Fixed(n: nat) | Variable(text: string)

  /** A mailbox payload as the schema gives it. */
  datatype RawPayload = RawPayload(name: string, mn: string, size: SizeField, params: seq<RawParam>)

  /** The `Payload` object: its flags and parameters. */
  datatype Payload = Payload(name: string, mn: string, size: SizeField, fixedSize: bool, simple: bool, paramsUsed: bool, params: seq<Param>)

  /** `is_simple`: every parameter one, two, four or eight bytes wide. */
  predicate AllSimple(ps: seq<RawParam>)
  {
    forall i :: 0 <= i < |ps| ==> TokenOfWidth(ps[i].size).Some?
  }

  /**
   * `Payload.__init__`: a text size marks the payload variable-sized and
   * stops before any parameter is read (it still counts as simple);
   * otherwise the parameters are built, `params_used` records whether
   * any lower-cased mnemonic is other than "rsvd", and `is_simple` sets
   * the simple flag. `None` when building a parameter raises.
   */
  function NewPayload(raw: RawPayload): (r: Option<Payload>)
    ensures raw.size.Variable? ==> r.Some? && !r.value.fixedSize && r.value.simple && r.value.params == []
    ensures r.Some? ==> r.value.size == raw.size && r.value.mn == Lower(raw.mn)
  {
    if raw.size.Variable? then Some(Payload(raw.name, Lower(raw.mn), raw.size, false, true, false, []))
    else
      var used := exists i :: 0 <= i < |raw.params| && Lower(raw.params[i].mn) != "rsvd";
      match MakeParams(raw.params, NamesAsWritten(raw.params))
      case None => None
      case Some(ps) => Some(Payload(raw.name, Lower(raw.mn), raw.size, true, AllSimple(raw.params), used, ps))
  }

  /**
   * A fixed-size payload fails to build exactly when some parameter's
   * unit size has no token; once built it holds one parameter per schema
   * parameter, each built under its name as written, and its simple and
   * `params_used` flags mean what `is_simple` and the "rsvd" test say.
   */
  lemma PayloadBuilt(raw: RawPayload)
    ensures var r := NewPayload(raw);
            !raw.size.Variable? ==> (r.None? <==> exists i :: 0 <= i < |raw.params| && raw.params[i].unit > 0 && TokenOfWidth(raw.params[i].unit).None?)
    ensures var r := NewPayload(raw);
            r.Some? && !raw.size.Variable? ==> r.value.fixedSize && |r.value.params| == |raw.params|
    ensures var r := NewPayload(raw);
            r.Some? && !raw.size.Variable? ==> (r.value.simple <==> AllSimple(raw.params))
    ensures var r := NewPayload(raw);
            r.Some? && !raw.size.Variable? ==> (r.value.paramsUsed <==> exists i :: 0 <= i < |raw.params| && Lower(raw.params[i].mn) != "rsvd")
    ensures var r := NewPayload(raw);
            r.Some? ==> forall i :: 0 <= i < |r.value.params| ==> Some(r.value.params[i]) == MakeParam(raw.params[i], NamesAsWritten(raw.params)[i])
  {
  }

  /**
   * A built payload declares each member once exactly when the names as
   * written are distinct, and then they are the corrected names.
   */
  lemma PayloadNamesDistinct(raw: RawPayload)
    requires NewPayload(raw).Some? && !raw.size.Variable?
    ensures var ps := NewPayload(raw).value.params;
            (forall i, j :: 0 <= i < j < |ps| ==> ps[i].mn != ps[j].mn) <==> Distinct(NamesAsWritten(raw.params))
    ensures var ps := NewPayload(raw).value.params;
            Distinct(NamesAsWritten(raw.params)) ==> forall i :: 0 <= i < |ps| ==> ps[i].mn == Names(raw.params)[i]
  {
    PayloadBuilt(raw);
    var ps := NewPayload(raw).value.params;
    var names := NamesAsWritten(raw.params);
    forall i | 0 <= i < |ps|
      ensures ps[i].mn == names[i]
    {
      assert Some(ps[i]) == MakeParam(raw.params[i], names[i]);
    }
    if Distinct(names) {
      NamesAgree(raw.params);
    }
  }

  /**
   * The schema of `RenamedNameCollides` as a payload: it builds, and its
   * first and third members are both "a12".
   */
  lemma PayloadRepeatsMember()
    ensures var raw := RawPayload("", "", Fixed(16), [RawParam("A12", "a12", 4, 0, 0, [], false),
                                                      RawParam("A", "a", 8, 4, 0, [], false),
                                                      RawParam("A again", "a", 4, 12, 0, [], false)]);
            NewPayload(raw).Some? && |NewPayload(raw).value.params| == 3
            && NewPayload(raw).value.params[0].mn == NewPayload(raw).value.params[2].mn == "a12"
  {
    var raw := RawPayload("", "", Fixed(16), [RawParam("A12", "a12", 4, 0, 0, [], false),
                                              RawParam("A", "a", 8, 4, 0, [], false),
                                              RawParam("A again", "a", 4, 12, 0, [], false)]);
    RenamedNameCollides();
    var names := NamesAsWritten(raw.params);
    assert names == ["a12", "a", "a12"];
    assert MakeParam(raw.params[0], names[0]).Some?;
    assert MakeParam(raw.params[1], names[1]).Some?;
    assert MakeParam(raw.params[2], names[2]).Some?;
    PayloadNamesDistinct(raw);
    PayloadBuilt(raw);
    var ps := NewPayload(raw).value.params;
    assert Some(ps[0]) == MakeParam(raw.params[0], names[0]);
    assert Some(ps[2]) == MakeParam(raw.params[2], names[2]);
  }

  /**
   * Distinct mnemonics are never renamed: every parameter is named by its
   * lower-cased mnemonic, and the names are distinct.
   */
  lemma {:induction false} MnemonicsKeepNamesFrom(ps: seq<RawParam>, used: seq<string>)
    requires forall i :: 0 <= i < |ps| ==> Lower(ps[i].mn) !in used
    requires forall i, j :: 0 <= i < j < |ps| ==> Lower(ps[i].mn) != Lower(ps[j].mn)
    ensures forall i :: 0 <= i < |ps| ==> NamesAsWrittenFrom(ps, used)[i] == Lower(ps[i].mn)
    decreases |ps|
  {
    if |ps| > 0 {
      var mn := Lower(ps[0].mn);
      var rest := NamesAsWrittenFrom(ps[1..], used + [mn]);
      assert NamesAsWrittenFrom(ps, used) == [mn] + rest;
      forall i | 0 <= i < |ps[1..]|
        ensures Lower(ps[1..][i].mn) !in used + [mn]
      {
        assert ps[1..][i] == ps[i + 1];
      }
      MnemonicsKeepNamesFrom(ps[1..], used + [mn]);
      forall i | 1 <= i < |ps|
        ensures NamesAsWrittenFrom(ps, used)[i] == Lower(ps[i].mn)
      {
        assert ps[1..][i - 1] == ps[i];
      }
    }
  }

  lemma MnemonicsKeepNames(ps: seq<RawParam>)
    requires forall i, j :: 0 <= i < j < |ps| ==> Lower(ps[i].mn) != Lower(ps[j].mn)
    ensures forall i :: 0 <= i < |ps| ==> NamesAsWritten(ps)[i] == Lower(ps[i].mn)
    ensures Distinct(NamesAsWritten(ps))
  {
    MnemonicsKeepNamesFrom(ps, []);
  }

  /**
   * A simple payload without unit sizes stores every parameter as one
   * scalar of exactly its width; conversely a parameter without a unit
   * size is a scalar only when it is simple.
   */
  lemma SimpleMeansScalars(raw: RawPayload)
    requires NewPayload(raw).Some? && !raw.size.Variable?
    requires forall i :: 0 <= i < |raw.params| ==> raw.params[i].unit == 0
    ensures var p := NewPayload(raw).value;
            p.simple <==> forall i :: 0 <= i < |p.params| ==> p.params[i].shape.Scalar?
    ensures var p := NewPayload(raw).value;
            forall i :: 0 <= i < |p.params| ==> ShapeBytes(p.params[i].shape) == raw.params[i].size
  {
    PayloadBuilt(raw);
    var p := NewPayload(raw).value;
    var names := NamesAsWritten(raw.params);
    forall i | 0 <= i < |p.params|
      ensures p.params[i].shape.Scalar? <==> TokenOfWidth(raw.params[i].size).Some?
      ensures ShapeBytes(p.params[i].shape) == raw.params[i].size
    {
      assert Some(p.params[i]) == MakeParam(raw.params[i], names[i]);
    }
  }
}

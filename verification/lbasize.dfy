/**
 * The sector sizes a namespace or BTT supports, read from its sysfs
 * attribute: a list of numbers, each ended by a space, with the size in
 * use written in brackets, for example "512 [4096] 520 ".
 */
module Lbasize {
  import opened Machine
  import opened Wrappers
  import opened CStr
  import opened Errno

  const INT_MAX: nat := 0x7FFF_FFFF

  /**
   * `struct ndctl_lbasize`: the sizes read so far (a NULL array is the
   * empty sequence), the position of the selected size or -1, and the
   * count of sizes.
   */
  datatype LbaSize = LbaSize(supported: seq<Word32>, select: int, num: nat)

  /** The shape every successful parse leaves: one size per count, and the selection, if any, among them. */
  predicate WellFormed(lba: LbaSize)
  {
    |lba.supported| == lba.num && -1 <= lba.select < lba.num
  }

  /**
   * `sscanf(field, "[%d]", &val) == 1`: an opening bracket followed by a
   * `%d` number. The closing bracket is matched only after the number is
   * stored, so it does not change the count.
   */
  function Bracketed(field: string): (r: Option<int>)
    ensures r.Some? ==> |field| > 0 && field[0] == '['
  {
    if |field| == 0 || field[0] != '[' then None
    else
      match ScanDecimal(field, 1)
      case Some(c) => Some(ToInt32(c.value))
      case None => None
  }

  /**
   * The loop of `parse_lbasize_supported` over the fields still to read:
   * a bracketed number is the selection (a second one is an error), a
   * plain number is another size, and anything else ends the list. Each
   * `%d` value lands in an `unsigned int`.
   */
  function ParseFields(fields: seq<string>, acc: LbaSize): (r: (int, LbaSize))
    requires WellFormed(acc)
    ensures r.0 == 0 || r.0 == -ENXIO
    ensures r.0 == 0 ==> WellFormed(r.1) && acc.supported <= r.1.supported
    ensures r.0 == 0 && acc.select >= 0 ==> r.1.select == acc.select
    ensures r.0 == -ENXIO ==> r.1.supported == [] && r.1.select == -1
    decreases |fields|
  {
    if |fields| == 0 then (0, acc)
    else
      var f := fields[0];
      match Bracketed(f)
      case Some(v) =>
        if acc.select >= 0 then (-ENXIO, LbaSize([], -1, acc.num))
        else ParseFields(fields[1..], LbaSize(acc.supported + [Wrap32(v) as Word32], acc.num, acc.num + 1))
      case None =>
        match ScanInt(f)
        case Some(v) => ParseFields(fields[1..], LbaSize(acc.supported + [Wrap32(v) as Word32], acc.select, acc.num + 1))
        case None => (0, acc)
  }

  /**
   * `parse_lbasize_supported`: 0 with the sizes and selection, or -ENXIO
   * with no sizes and no selection when two sizes are bracketed. The count
   * is left as it stood on the error path.
   */
  function ParseLbasizeSupported(buf: string): (r: (int, LbaSize))
    ensures r.0 == 0 || r.0 == -ENXIO
    ensures r.0 == 0 ==> WellFormed(r.1)
    ensures r.0 == -ENXIO ==> r.1.supported == [] && r.1.select == -1
  {
    ParseFields(Fields(buf, ' '), LbaSize([], -1, 0))
  }

  // ---------------------------------------------------------------------
  // The attribute format
  // ---------------------------------------------------------------------

  /** One size as the attribute shows it: in brackets when it is the one in use. */
  function Field(n: nat, selected: bool): string
  {
    if selected then "[" + Decimal(n) + "]" else Decimal(n)
  }

  /** The fields for the sizes from position `i` on, with the size at `sel` bracketed. */
  function FormatFrom(sizes: seq<Word32>, sel: int, i: nat): (r: seq<string>)
    ensures |r| == if i <= |sizes| then |sizes| - i else 0
    decreases |sizes| - i
  {
    if i >= |sizes| then [] else [Field(sizes[i], i == sel)] + FormatFrom(sizes, sel, i + 1)
  }

  lemma FieldHasNoSpace(n: nat, selected: bool)
    ensures ' ' !in Field(n, selected)
  {
    DecimalShape(n);
    var d := Decimal(n);
    if selected {
      var f := "[" + d + "]";
      forall k | 0 <= k < |f|
        ensures f[k] != ' '
      {
        if 1 <= k <= |d| {
          assert f[k] == d[k - 1];
        }
      }
    }
  }

  lemma {:induction false} FormatHasNoSpace(sizes: seq<Word32>, sel: int, i: nat)
    ensures forall t :: t in FormatFrom(sizes, sel, i) ==> ' ' !in t
    decreases |sizes| - i
  {
    if i < |sizes| {
      FieldHasNoSpace(sizes[i], i == sel);
      FormatHasNoSpace(sizes, sel, i + 1);
    }
  }

  /** A plain field reads as its size and is not taken for a selection. */
  lemma PlainField(n: nat)
    requires n <= INT_MAX
    ensures Bracketed(Field(n, false)) == None
    ensures ScanInt(Field(n, false)) == Some(n)
  {
    var d := Decimal(n);
    DecimalShape(n);
    assert d[0] != '[';
    assert d[0..] == d + "";
    ScanDecimalNumeral(d, 0, n, "");
  }

  /** A bracketed field reads as its size. */
  lemma SelectedField(n: nat)
    requires n <= INT_MAX
    ensures Bracketed(Field(n, true)) == Some(n as int)
  {
    var f := "[" + Decimal(n) + "]";
    assert f[1..] == Decimal(n) + "]";
    ScanDecimalNumeral(f, 1, n, "]");
  }

  lemma {:induction false} ParseFormatFrom(sizes: seq<Word32>, sel: int, i: nat)
    requires i <= |sizes| && -1 <= sel < |sizes|
    requires forall k :: 0 <= k < |sizes| ==> sizes[k] <= INT_MAX
    ensures ParseFields(FormatFrom(sizes, sel, i), LbaSize(sizes[..i], if sel < i then sel else -1, i))
      == (0, LbaSize(sizes, sel, |sizes|))
    decreases |sizes| - i
  {
    if i == |sizes| {
      assert sizes[..i] == sizes;
    } else {
      FormatStep(sizes, sel, i);
      ParseFormatFrom(sizes, sel, i + 1);
    }
  }

  /** Reading the field of the size at `i` adds that size, and the selection when it is bracketed. */
  lemma FormatStep(sizes: seq<Word32>, sel: int, i: nat)
    requires i < |sizes| && -1 <= sel < |sizes|
    requires sizes[i] <= INT_MAX
    ensures ParseFields(FormatFrom(sizes, sel, i), LbaSize(sizes[..i], if sel < i then sel else -1, i))
      == ParseFields(FormatFrom(sizes, sel, i + 1), LbaSize(sizes[..i + 1], if sel < i + 1 then sel else -1, i + 1))
  {
    var fs := FormatFrom(sizes, sel, i);
    assert fs[1..] == FormatFrom(sizes, sel, i + 1);
    assert sizes[..i] + [sizes[i]] == sizes[..i + 1];
    if i == sel {
      SelectedField(sizes[i]);
    } else {
      PlainField(sizes[i]);
    }
  }

  /**
   * Reading back the attribute written for a list of sizes, with at most
   * one selected, gives the sizes, the selection and the count, whatever
   * space-free text (the closing newline) follows the last field.
   */
  lemma ParseFormatted(sizes: seq<Word32>, sel: int, tail: string)
    requires -1 <= sel < |sizes|
    requires forall k :: 0 <= k < |sizes| ==> sizes[k] <= INT_MAX
    requires ' ' !in tail
    ensures ParseLbasizeSupported(Terminated(FormatFrom(sizes, sel, 0), ' ') + tail) == (0, LbaSize(sizes, sel, |sizes|))
  {
    FormatHasNoSpace(sizes, sel, 0);
    FieldsOfTerminated(FormatFrom(sizes, sel, 0), ' ', tail);
    assert sizes[..0] == [];
    ParseFormatFrom(sizes, sel, 0);
  }

  /** A second bracketed size is an error that discards the sizes read, after counting the first. */
  lemma TwoSelectionsRejected(a: nat, b: nat, tail: string)
    requires a <= INT_MAX && b <= INT_MAX
    requires ' ' !in tail
    ensures ParseLbasizeSupported(Terminated([Field(a, true), Field(b, true)], ' ') + tail) == (-ENXIO, LbaSize([], -1, 1))
  {
    FieldHasNoSpace(a, true);
    FieldHasNoSpace(b, true);
    var fs := [Field(a, true), Field(b, true)];
    FieldsOfTerminated(fs, ' ', tail);
    SelectedField(a);
    SelectedField(b);
    assert fs[1..] == [Field(b, true)];
    var first := LbaSize([a as Word32], 0, 1);
    assert ParseFields(fs, LbaSize([], -1, 0)) == ParseFields(fs[1..], first);
  }

  /** A field that is not a number ends the list: nothing after it is read. */
  lemma WordEndsList(sizes: seq<Word32>, sel: int, word: string, rest: string)
    requires -1 <= sel < |sizes|
    requires forall k :: 0 <= k < |sizes| ==> sizes[k] <= INT_MAX
    requires |word| > 0 && 'a' <= word[0] <= 'z' && ' ' !in word
    ensures ParseLbasizeSupported(Terminated(FormatFrom(sizes, sel, 0) + [word], ' ') + rest) == (0, LbaSize(sizes, sel, |sizes|))
  {
    var fs := FormatFrom(sizes, sel, 0);
    FormatHasNoSpace(sizes, sel, 0);
    WordIsNoNumber(word);
    FieldsBeforeWord(fs, word, rest);
    ParseStopsAt(fs, word, Fields(rest, ' '), LbaSize([], -1, 0));
    assert sizes[..0] == [];
    ParseFormatFrom(sizes, sel, 0);
  }

  lemma WordIsNoNumber(word: string)
    requires |word| > 0 && 'a' <= word[0] <= 'z'
    ensures Bracketed(word).None? && ScanInt(word).None?
  {
    assert SkipSpace(word, 0) == 0;
    assert DigitVal(word[0]) >= 10;
  }

  lemma FieldsBeforeWord(fs: seq<string>, word: string, rest: string)
    requires forall t :: t in fs ==> ' ' !in t
    requires ' ' !in word
    ensures Fields(Terminated(fs + [word], ' ') + rest, ' ') == fs + [word] + Fields(rest, ' ')
  {
    assert forall t :: t in fs + [word] ==> ' ' !in t;
    FieldsOfTerminatedThen(fs + [word], ' ', rest);
  }

  /** Parsing stops at a field that is neither bracketed nor a number. */
  lemma {:induction false} ParseStopsAt(ts: seq<string>, word: string, more: seq<string>, acc: LbaSize)
    requires WellFormed(acc)
    requires Bracketed(word).None? && ScanInt(word).None?
    ensures ParseFields(ts + [word] + more, acc) == ParseFields(ts, acc)
    decreases |ts|
  {
    if |ts| == 0 {
      assert ([] + [word] + more)[1..] == more;
    } else {
      assert (ts + [word] + more)[0] == ts[0];
      assert (ts + [word] + more)[1..] == ts[1..] + [word] + more;
      match Bracketed(ts[0])
      case Some(v) =>
        if acc.select < 0 {
          ParseStopsAt(ts[1..], word, more, LbaSize(acc.supported + [Wrap32(v) as Word32], acc.num, acc.num + 1));
        }
      case None =>
        match ScanInt(ts[0])
        case Some(v) =>
          ParseStopsAt(ts[1..], word, more, LbaSize(acc.supported + [Wrap32(v) as Word32], acc.select, acc.num + 1));
        case None =>
    }
  }
}

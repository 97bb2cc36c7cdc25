/**
 * The sNBT serializer (fastsnbt/src/ser/mod.rs). A `Serializer` owns the
 * output written so far and an optional nesting depth (None: compact
 * output, Some(n): pretty output at depth n). Serde's generic dispatch is
 * replaced by a closed `Value` type; `ArraySerializer` and
 * `CompoundSerializer` are the per-sequence and per-map emitters the source
 * hands to serde.
 *
 * Each method is proved against a specification function (`Emit` and the
 * functions below it) that gives the exact text written for a value at a
 * given depth, and whether serialization succeeded.
 */
module Ser {
  import opened Numerals

  /** The shapes serde can hand to the serializer. */
  datatype Value =
    | Bool(b: bool)
    | I8(i8v: i8)
    | I16(i16v: i16)
    | I32(i32v: i32)
    | I64(i64v: i64)
    | U8(u8v: u8)
    | U16(u16v: u16)
    | U32(u32v: u32)
    | U64(u64v: u64)
    | Char(c: char)
    | Str(s: string)
    | Bytes(bytes: seq<u8>)
    | OptNone
    | OptSome(inner: Value)
    | Unit
    | UnitStruct(name: string)
    | UnitVariant(name: string, variant: string)
    | NewtypeStruct(name: string, inner: Value)
    | NewtypeVariant(name: string, variant: string, inner: Value)
      /** sequences, tuples and tuple structs */
    | Seq(elems: seq<Value>)
    | TupleVariant(name: string, variant: string, elems: seq<Value>)
      /** maps and structs, each key already rendered to its name */
    | Map(entries: seq<Entry>)
    | StructVariant(name: string, variant: string, entries: seq<Entry>)
  {
    /** The shapes that hold no nested value and no byte buffer. */
    predicate IsPrimitive() {
      || Bool? || I8? || I16? || I32? || I64? || U8? || U16? || U32? || U64?
      || Char? || Str? || OptNone? || Unit? || UnitStruct? || UnitVariant?
    }
  }

  datatype Entry = Entry(key: string, value: Value)

  /** Why serialization stopped; the message text is not modelled. */
  datatype SerError = Unsupported | ValueBeforeKey

  datatype Outcome = Pass | Fail(error: SerError)

  /** What serializing writes: the text (up to the point of failure) and the outcome. */
  datatype Emission = Emission(text: string, outcome: Outcome)

  function Done(text: string): Emission {
    Emission(text, Pass)
  }

  const Refused := Emission("", Fail(Unsupported))

  // ---------------------------------------------------------------------
  // depth and indentation
  // ---------------------------------------------------------------------

  function PushDepth(d: Option<nat>): Option<nat> {
    match d
    case None => None
    case Some(n) => Some(n + 1)
  }

  /** Saturating: depth 0 stays 0. */
  function PopDepth(d: Option<nat>): Option<nat> {
    match d
    case None => None
    case Some(n) => Some(if n == 0 then 0 else n - 1)
  }

  /** Four spaces per level. */
  function Indentation(n: nat): string {
    if n == 0 then "" else Indentation(n - 1) + "    "
  }

  /** What `newline` writes: nothing in compact mode, else a line break and the indentation. */
  function NewlineText(d: Option<nat>): string {
    match d
    case None => ""
    case Some(n) => "\n" + Indentation(n)
  }

  /** Between a key and its value: `: ` in pretty mode, `:` in compact mode. */
  function Separator(d: Option<nat>): string {
    if d.Some? then ": " else ":"
  }

  // ---------------------------------------------------------------------
  // strings
  // ---------------------------------------------------------------------

  predicate NeedsEscape(c: char) {
    c == '"' || c == '\\'
  }

  /** Every `"` becomes `\"`, every `\` becomes `\\`, everything else is kept. */
  function Escape(s: string): (r: string)
    ensures |r| >= |s|
    decreases |s|
  {
    if s == [] then []
    else (if NeedsEscape(s[0]) then ['\\', s[0]] else [s[0]]) + Escape(s[1..])
  }

  function QuotedText(s: string): string {
    "\"" + Escape(s) + "\""
  }

  lemma {:induction false} EscapeAppend(a: string, b: string)
    ensures Escape(a + b) == Escape(a) + Escape(b)
    decreases |a|
  {
    if a != [] {
      assert (a + b)[1..] == a[1..] + b;
      EscapeAppend(a[1..], b);
    } else {
      assert a + b == b;
    }
  }

  /** A string without `"` and `\` is written unchanged. */
  lemma {:induction false} EscapePlain(s: string)
    requires forall i :: 0 <= i < |s| ==> !NeedsEscape(s[i])
    ensures Escape(s) == s
    decreases |s|
  {
    if s != [] {
      EscapePlain(s[1..]);
    }
  }

  // ---------------------------------------------------------------------
  // typed-array sentinels
  // ---------------------------------------------------------------------

  /** The three typed-array encodings a sentinel key selects. */
  datatype ArrayKind = ByteArray | IntArray | LongArray {
    function Prefix(): string {
      match this
      case ByteArray => "B;"
      case IntArray => "I;"
      case LongArray => "L;"
    }
  }

  /**
   * The reserved key names. Their text is defined outside ser/mod.rs; the
   * model relies only on their being three distinct strings.
   */
  const ByteArrayToken: string := "__fastnbt_byte_array"
  const IntArrayToken: string := "__fastnbt_int_array"
  const LongArrayToken: string := "__fastnbt_long_array"

  function SentinelKind(name: string): Option<ArrayKind>
  {
    if name == ByteArrayToken then Some(ByteArray)
    else if name == IntArrayToken then Some(IntArray)
    else if name == LongArrayToken then Some(LongArray)
    else None
  }

  // ---------------------------------------------------------------------
  // sizes, for termination
  // ---------------------------------------------------------------------

  function Size(v: Value): (n: nat)
    ensures n > 0
    decreases v
  {
    match v
    case OptSome(inner) => 1 + Size(inner)
    case NewtypeStruct(_, inner) => 1 + Size(inner)
    case Bytes(bs) => 1 + |bs|
    case Seq(elems) => 1 + SizeOfAll(elems)
    case Map(entries) => 1 + SizeOfEntries(entries)
    case _ => 1
  }

  function SizeOfAll(elems: seq<Value>): nat
    decreases elems
  {
    if |elems| == 0 then 0 else SizeOfAll(elems[..|elems| - 1]) + Size(elems[|elems| - 1])
  }

  function SizeOfEntries(entries: seq<Entry>): nat
    decreases entries
  {
    if |entries| == 0 then 0
    else SizeOfEntries(entries[..|entries| - 1]) + 1 + Size(entries[|entries| - 1].value)
  }

  lemma {:induction false} SizeOfAllBound(elems: seq<Value>, i: nat)
    requires i < |elems|
    ensures Size(elems[i]) <= SizeOfAll(elems)
    decreases |elems|
  {
    if i < |elems| - 1 {
      assert elems[..|elems| - 1][i] == elems[i];
      SizeOfAllBound(elems[..|elems| - 1], i);
    }
  }

  lemma {:induction false} SizeOfEntriesBound(entries: seq<Entry>, i: nat)
    requires i < |entries|
    ensures Size(entries[i].value) < SizeOfEntries(entries)
    decreases |entries|
  {
    if i < |entries| - 1 {
      assert entries[..|entries| - 1][i] == entries[i];
      SizeOfEntriesBound(entries[..|entries| - 1], i);
    }
  }

  /** `serialize_bytes` hands each byte to the element emitter as a `u8`. */
  function ByteValues(bs: seq<u8>): (vs: seq<Value>)
    ensures |vs| == |bs| && forall i :: 0 <= i < |bs| ==> vs[i] == U8(bs[i])
  {
    seq(|bs|, i requires 0 <= i < |bs| => U8(bs[i]))
  }

  lemma {:induction false} ByteValuesSize(bs: seq<u8>)
    ensures SizeOfAll(ByteValues(bs)) == |bs|
    decreases |bs|
  {
    if |bs| > 0 {
      assert ByteValues(bs)[..|bs| - 1] == ByteValues(bs[..|bs| - 1]);
      ByteValuesSize(bs[..|bs| - 1]);
    }
  }

  // ---------------------------------------------------------------------
  // what the serializer writes
  // ---------------------------------------------------------------------

  /** The text written for `v` when the depth is `d`, and whether it succeeded. */
  function Emit(v: Value, d: Option<nat>): Emission
    decreases Size(v), 0
  {
    match v
    case Bool(b) => Done(if b then "true" else "false")
    case I8(x) => Done(Itoa(x as int) + "b")
    case I16(x) => Done(Itoa(x as int) + "s")
    case I32(x) => Done(Itoa(x as int))
    case I64(x) => Done(Itoa(x as int) + "l")
    case U8(x) => Done(Itoa(x as int) + "b")
    case U16(x) => Done(Itoa(x as int) + "s")
    case U32(x) => Done(Itoa(x as int))
    case U64(x) => Done(Itoa(x as int) + "l")
    case Char(c) => Done(QuotedText([c]))
    case Str(s) => Done(QuotedText(s))
    case Bytes(bs) =>
      ByteValuesSize(bs);
      ArrayEmission("", ByteValues(bs), d)
    case OptNone => Refused
    case OptSome(inner) => Emit(inner, d)
    case Unit => Refused
    case UnitStruct(_) => Refused
    case UnitVariant(_, variant) => Done(QuotedText(variant))
    case NewtypeStruct(_, inner) => Emit(inner, d)
    case NewtypeVariant(_, _, _) => Refused
    case Seq(elems) => ArrayEmission("", elems, d)
    case TupleVariant(_, _, _) => Refused
    case Map(entries) => CompoundEmission(entries, d)
    case StructVariant(_, _, _) => Refused
  }

  /**
   * The sequence emitter: `[` + prefix + `]` when empty; otherwise the
   * opened elements at one level deeper, then a newline at the restored
   * depth and `]`.
   */
  function ArrayEmission(prefix: string, elems: seq<Value>, d: Option<nat>): Emission
    decreases SizeOfAll(elems), 3
  {
    if |elems| == 0 then Done("[" + prefix + "]")
    else
      var body := OpenedElems(prefix, elems, PushDepth(d));
      if body.outcome.Fail? then body
      else Done(body.text + NewlineText(PopDepth(PushDepth(d))) + "]")
  }

  /**
   * What one element of an array at depth `inner` writes: the first is
   * preceded by `[`, a newline, the prefix and a newline; a later one by
   * `,` and a newline.
   */
  function ElemStep(later: bool, prefix: string, e: Value, inner: Option<nat>): Emission
    decreases Size(e), 1
  {
    var lead := if later then "," else "[" + NewlineText(inner) + prefix;
    var t := Emit(e, inner);
    Emission(lead + NewlineText(inner) + t.text, t.outcome)
  }

  /** The elements of a non-empty array at depth `inner`, stopping at the first that fails. */
  function OpenedElems(prefix: string, elems: seq<Value>, inner: Option<nat>): Emission
    decreases SizeOfAll(elems), 2
  {
    if |elems| == 0 then Done("")
    else
      var before := OpenedElems(prefix, elems[..|elems| - 1], inner);
      if before.outcome.Fail? then before
      else
        var step := ElemStep(|elems| > 1, prefix, elems[|elems| - 1], inner);
        Emission(before.text + step.text, step.outcome)
  }

  /** The typed-array branch: the sequence emitter with the kind's prefix. */
  function TypedArrayEmission(kind: ArrayKind, v: Value, d: Option<nat>): Emission
    decreases Size(v), 4
  {
    match v
    case Seq(elems) => ArrayEmission(kind.Prefix(), elems, d)
    case Bytes(bs) =>
      ByteValuesSize(bs);
      ArrayEmission(kind.Prefix(), ByteValues(bs), d)
    case _ => Refused
  }

  /** The state of a compound after some entries: text so far, outcome, whether `{` was written. */
  datatype Run = Run(text: string, outcome: Outcome, isCompound: bool)

  /**
   * What one entry of a compound writes when the current depth is `cur`,
   * and whether `{` has been written afterwards. A later entry is preceded
   * by `,` and a newline. A sentinel key writes only its typed array; an
   * ordinary key first opens `{` (one level deeper) if that has not happened
   * yet, then writes the name, the separator and the value.
   */
  function EntryStep(isCompound: bool, later: bool, e: Entry, cur: Option<nat>): Run
    decreases Size(e.value), 5
  {
    var sep := if later then "," + NewlineText(cur) else "";
    match SentinelKind(e.key)
    case Some(kind) =>
      var t := TypedArrayEmission(kind, e.value, cur);
      Run(sep + t.text, t.outcome, isCompound)
    case None =>
      var named := NamedValue(isCompound, e, cur);
      Run(sep + named.text, named.outcome, true)
  }

  /**
   * An entry whose key is not a sentinel: `{` (one level deeper) if the
   * compound is not open yet, then the name, the separator and the value.
   */
  function NamedValue(isCompound: bool, e: Entry, cur: Option<nat>): Emission
    decreases Size(e.value), 1
  {
    var inner := if isCompound then cur else PushDepth(cur);
    var open := if isCompound then "" else "{" + NewlineText(inner);
    var t := Emit(e.value, inner);
    Emission(open + e.key + Separator(inner) + t.text, t.outcome)
  }

  /** The entries of a compound whose own depth is `d`, stopping at the first that fails. */
  function EntriesRun(entries: seq<Entry>, d: Option<nat>): Run
    decreases SizeOfEntries(entries), 1
  {
    if |entries| == 0 then Run("", Pass, false)
    else
      var before := EntriesRun(entries[..|entries| - 1], d);
      if before.outcome.Fail? then before
      else
        var cur := if before.isCompound then PushDepth(d) else d;
        var step := EntryStep(before.isCompound, |entries| > 1, entries[|entries| - 1], cur);
        Run(before.text + step.text, step.outcome, step.isCompound)
  }

  /** The compound emitter: entries, then `}` if one was opened, `{}` if there were none. */
  function CompoundEmission(entries: seq<Entry>, d: Option<nat>): Emission
    decreases SizeOfEntries(entries), 2
  {
    var run := EntriesRun(entries, d);
    if run.outcome.Fail? then Emission(run.text, run.outcome)
    else if run.isCompound then Done(run.text + NewlineText(PopDepth(PushDepth(d))) + "}")
    else if |entries| == 0 then Done("{}")
    else Done(run.text)
  }

  /** Extending a run that has not failed by one element is one `ElemStep`. */
  lemma OpenedElemsStep(prefix: string, elems: seq<Value>, i: nat, inner: Option<nat>)
    requires i < |elems|
    requires OpenedElems(prefix, elems[..i], inner).outcome == Pass
    ensures var step := ElemStep(i > 0, prefix, elems[i], inner);
      OpenedElems(prefix, elems[..i + 1], inner)
      == Emission(OpenedElems(prefix, elems[..i], inner).text + step.text, step.outcome)
  {
    assert elems[..i + 1][..i] == elems[..i];
  }

  /** Extending a run that has not failed by one entry is one `EntryStep`. */
  lemma EntriesRunStep(entries: seq<Entry>, i: nat, d: Option<nat>)
    requires i < |entries|
    requires EntriesRun(entries[..i], d).outcome == Pass
    ensures var before := EntriesRun(entries[..i], d);
      var step := EntryStep(before.isCompound, i > 0, Entry(entries[i].key, entries[i].value),
                            if before.isCompound then PushDepth(d) else d);
      && EntriesRun(entries[..i + 1], d).text == before.text + step.text
      && EntriesRun(entries[..i + 1], d).outcome == step.outcome
      && EntriesRun(entries[..i + 1], d).isCompound == step.isCompound
  {
    assert entries[..i + 1][..i] == entries[..i];
    assert Entry(entries[i].key, entries[i].value) == entries[i];
  }

  /**
   * One iteration of the map driver: the entry's value is smaller than the
   * whole (so the recursion ends), the run grows by one `EntryStep`, and if
   * that step fails the compound's text is the run so far.
   */
  lemma CompoundStep(o: string, entries: seq<Entry>, i: nat, d: Option<nat>)
    requires i < |entries|
    requires EntriesRun(entries[..i], d).outcome == Pass
    ensures Size(entries[i].value) < SizeOfEntries(entries)
    ensures var before := EntriesRun(entries[..i], d);
      var cur := if before.isCompound then PushDepth(d) else d;
      var step := EntryStep(before.isCompound, i > 0, Entry(entries[i].key, entries[i].value), cur);
      var after := EntriesRun(entries[..i + 1], d);
      && (o + before.text) + step.text == o + after.text
      && after.outcome == step.outcome
      && after.isCompound == step.isCompound
      && (step.outcome.Fail? ==> CompoundEmission(entries, d) == Emission(after.text, after.outcome))
  {
    SizeOfEntriesBound(entries, i);
    EntriesRunStep(entries, i, d);
    var before := EntriesRun(entries[..i], d);
    var cur := if before.isCompound then PushDepth(d) else d;
    var step := EntryStep(before.isCompound, i > 0, Entry(entries[i].key, entries[i].value), cur);
    AppendAssoc(o, before.text, step.text);
    if step.outcome.Fail? {
      EntriesRunFailureSticks(entries, i + 1, d);
    }
  }

  /** When every entry succeeds, the compound closes after the run. */
  lemma CompoundClose(o: string, entries: seq<Entry>, d: Option<nat>)
    requires EntriesRun(entries[..|entries|], d).outcome == Pass
    ensures var run := EntriesRun(entries[..|entries|], d);
      var closing := if run.isCompound then NewlineText(PopDepth(PushDepth(d))) + "}"
                     else if |entries| == 0 then "{}" else "";
      && CompoundEmission(entries, d).outcome == Pass
      && (o + run.text) + closing == o + CompoundEmission(entries, d).text
  {
    assert entries[..|entries|] == entries;
    var run := EntriesRun(entries, d);
    var closing := if run.isCompound then NewlineText(PopDepth(PushDepth(d))) + "}"
                   else if |entries| == 0 then "{}" else "";
    AppendAssoc(o, run.text, closing);
    if run.isCompound {
      AppendAssoc(run.text, NewlineText(PopDepth(PushDepth(d))), "}");
    }
  }

  lemma {:induction false} OpenedElemsFailureSticks(prefix: string, elems: seq<Value>, k: nat, inner: Option<nat>)
    requires 0 < k <= |elems|
    requires OpenedElems(prefix, elems[..k], inner).outcome.Fail?
    ensures OpenedElems(prefix, elems, inner) == OpenedElems(prefix, elems[..k], inner)
    decreases |elems|
  {
    if k == |elems| {
      assert elems[..k] == elems;
    } else {
      var n := |elems|;
      assert elems[..n - 1][..k] == elems[..k];
      OpenedElemsFailureSticks(prefix, elems[..n - 1], k, inner);
    }
  }

  lemma {:induction false} EntriesRunFailureSticks(entries: seq<Entry>, k: nat, d: Option<nat>)
    requires 0 < k <= |entries|
    requires EntriesRun(entries[..k], d).outcome.Fail?
    ensures EntriesRun(entries, d) == EntriesRun(entries[..k], d)
    decreases |entries|
  {
    if k == |entries| {
      assert entries[..k] == entries;
    } else {
      var n := |entries|;
      assert entries[..n - 1][..k] == entries[..k];
      EntriesRunFailureSticks(entries[..n - 1], k, d);
    }
  }

  // ---------------------------------------------------------------------
  // the serializer
  // ---------------------------------------------------------------------

  /** Writing `b` and then `c` after `a` is writing `b + c` after `a`. */
  lemma AppendAssoc(a: string, b: string, c: string)
    ensures (a + b) + c == a + (b + c)
  {
  }

  /** A run of characters that need no escaping, followed by one that does. */
  lemma EscapeRunThenSpecial(v: string, start: nat, i: nat)
    requires start <= i < |v| && NeedsEscape(v[i])
    requires forall j :: start <= j < i ==> !NeedsEscape(v[j])
    ensures Escape(v[..i + 1]) == Escape(v[..start]) + v[start..i] + ['\\', v[i]]
  {
    assert v[..i + 1] == v[..start] + v[start..i] + [v[i]];
    EscapeAppend(v[..start] + v[start..i], [v[i]]);
    EscapeAppend(v[..start], v[start..i]);
    EscapePlain(v[start..i]);
  }

  /** A final run of characters that need no escaping. */
  lemma EscapeRunAtEnd(v: string, start: nat)
    requires start <= |v|
    requires forall j :: start <= j < |v| ==> !NeedsEscape(v[j])
    ensures Escape(v) == Escape(v[..start]) + v[start..]
  {
    assert v == v[..start] + v[start..];
    EscapeAppend(v[..start], v[start..]);
    EscapePlain(v[start..]);
  }

  /**
   * One iteration of the sequence driver: the element is no larger than the
   * whole, the run grows by one `ElemStep`, and if that step fails the
   * array's text is the run so far.
   */
  lemma ArrayStep(o: string, prefix: string, elems: seq<Value>, i: nat, d: Option<nat>)
    requires i < |elems|
    requires OpenedElems(prefix, elems[..i], PushDepth(d)).outcome == Pass
    ensures Size(elems[i]) <= SizeOfAll(elems)
    ensures var before := OpenedElems(prefix, elems[..i], PushDepth(d));
      var step := ElemStep(i > 0, prefix, elems[i], PushDepth(d));
      var after := OpenedElems(prefix, elems[..i + 1], PushDepth(d));
      && (o + before.text) + step.text == o + after.text
      && after.outcome == step.outcome
      && (step.outcome.Fail? ==> ArrayEmission(prefix, elems, d) == after)
  {
    SizeOfAllBound(elems, i);
    OpenedElemsStep(prefix, elems, i, PushDepth(d));
    AppendAssoc(o, OpenedElems(prefix, elems[..i], PushDepth(d)).text, ElemStep(i > 0, prefix, elems[i], PushDepth(d)).text);
    if ElemStep(i > 0, prefix, elems[i], PushDepth(d)).outcome.Fail? {
      OpenedElemsFailureSticks(prefix, elems, i + 1, PushDepth(d));
    }
  }

  /** When every element succeeds, the array closes after them. */
  lemma ArrayClose(o: string, prefix: string, elems: seq<Value>, d: Option<nat>)
    requires OpenedElems(prefix, elems, PushDepth(d)).outcome == Pass
    ensures var closing := if |elems| > 0 then NewlineText(PopDepth(PushDepth(d))) + "]" else "[" + prefix + "]";
      && ArrayEmission(prefix, elems, d).outcome == Pass
      && (o + OpenedElems(prefix, elems, PushDepth(d)).text) + closing == o + ArrayEmission(prefix, elems, d).text
  {
    if |elems| > 0 {
      var body := OpenedElems(prefix, elems, PushDepth(d)).text;
      var nl := NewlineText(PopDepth(PushDepth(d)));
      AppendAssoc(body, nl, "]");
      AppendAssoc(o, body, nl + "]");
    }
  }

  class Serializer {
    /** Everything written to the sink so far. */
    var out: string
    /** None: compact output; Some(n): pretty output at depth n. */
    var indent: Option<nat>

    constructor (indent: Option<nat>)
      ensures out == "" && this.indent == indent
    {
      out := "";
      this.indent := indent;
    }

    method Newline()
      modifies this
      ensures out == old(out) + NewlineText(old(indent)) && indent == old(indent)
    {
      if indent.Some? {
        var n := indent.value;
        out := out + "\n";
        var k := 0;
        while k < n
          invariant 0 <= k <= n && indent == old(indent)
          invariant out == old(out) + "\n" + Indentation(k)
        {
          AppendAssoc(old(out) + "\n", Indentation(k), "    ");
          out := out + "    ";
          k := k + 1;
        }
        AppendAssoc(old(out), "\n", Indentation(n));
      }
    }

    method PushIndent()
      modifies this
      ensures indent == PushDepth(old(indent)) && out == old(out)
    {
      indent := PushDepth(indent);
    }

    method PopIndent()
      modifies this
      ensures indent == PopDepth(old(indent)) && out == old(out)
    {
      indent := PopDepth(indent);
    }

    /** `write_escaped_str`: one pass, copying the runs between characters that need escaping. */
    method WriteEscapedStr(v: string)
      modifies this
      ensures out == old(out) + QuotedText(v) && indent == old(indent)
    {
      out := out + "\"";
      ghost var head := out;
      var start := 0;
      var i := 0;
      while i < |v|
        invariant 0 <= start <= i <= |v|
        invariant out == head + Escape(v[..start])
        invariant forall j :: start <= j < i ==> !NeedsEscape(v[j])
        invariant indent == old(indent)
      {
        var c := v[i];
        if NeedsEscape(c) {
          ghost var e := Escape(v[..start]);
          if start < i {
            AppendAssoc(head, e, v[start..i]);
            out := out + v[start..i];
          } else {
            assert e + v[start..i] == e;
          }
          AppendAssoc(head, e + v[start..i], ['\\', c]);
          if c == '"' {
            out := out + "\\\"";
          } else {
            out := out + "\\\\";
          }
          EscapeRunThenSpecial(v, start, i);
          start := i + 1;
        }
        i := i + 1;
      }
      ghost var e := Escape(v[..start]);
      EscapeRunAtEnd(v, start);
      if start != |v| {
        AppendAssoc(head, e, v[start..]);
        out := out + v[start..];
      } else {
        assert e + v[start..] == e;
      }
      AppendAssoc(old(out), "\"", Escape(v));
      AppendAssoc(old(out), "\"" + Escape(v), "\"");
      out := out + "\"";
    }

    /** An integer as itoa writes it, then its type letter (none for the 32-bit types). */
    method WriteInteger(x: int, letter: string)
      modifies this
      ensures out == old(out) + (Itoa(x) + letter) && indent == old(indent)
    {
      out := out + Itoa(x);
      if letter != "" {
        AppendAssoc(old(out), Itoa(x), letter);
        out := out + letter;
      }
    }

    /** The `ser::Serializer` dispatch: one value, written at the current depth. */
    method Serialize(v: Value) returns (r: Outcome)
      modifies this
      ensures out == old(out) + Emit(v, old(indent)).text
      ensures r == Emit(v, old(indent)).outcome
      ensures r.Pass? ==> indent == old(indent)
      decreases Size(v), 0
    {
      if v.IsPrimitive() {
        r := SerializePrimitive(v);
        return;
      }
      match v
      case Bytes(bs) =>
        ByteValuesSize(bs);
        r := SerializeArray("", ByteValues(bs));
      case OptSome(inner) =>
        r := Serialize(inner);
      case NewtypeStruct(_, inner) =>
        r := Serialize(inner);
      case NewtypeVariant(_, _, _) =>
        r := Fail(Unsupported);
      case Seq(elems) =>
        r := SerializeArray("", elems);
      case TupleVariant(_, _, _) =>
        r := Fail(Unsupported);
      case Map(entries) =>
        r := SerializeCompound(entries);
      case StructVariant(_, _, _) =>
        r := Fail(Unsupported);
    }

    /** The methods for serde's primitive shapes, which write at most one token. */
    method SerializePrimitive(v: Value) returns (r: Outcome)
      requires v.IsPrimitive()
      modifies this
      ensures out == old(out) + Emit(v, old(indent)).text
      ensures r == Emit(v, old(indent)).outcome
      ensures indent == old(indent)
    {
      match v
      case Bool(b) =>
        out := out + (if b then "true" else "false");
        r := Pass;
      case I8(x) =>
        WriteInteger(x as int, "b");
        r := Pass;
      case I16(x) =>
        WriteInteger(x as int, "s");
        r := Pass;
      case I32(x) =>
        WriteInteger(x as int, "");
        r := Pass;
      case I64(x) =>
        WriteInteger(x as int, "l");
        r := Pass;
      case U8(x) =>
        WriteInteger(x as int, "b");
        r := Pass;
      case U16(x) =>
        WriteInteger(x as int, "s");
        r := Pass;
      case U32(x) =>
        WriteInteger(x as int, "");
        r := Pass;
      case U64(x) =>
        WriteInteger(x as int, "l");
        r := Pass;
      case Char(c) =>
        WriteEscapedStr([c]);
        r := Pass;
      case Str(s) =>
        WriteEscapedStr(s);
        r := Pass;
      case OptNone =>
        r := Fail(Unsupported);
      case Unit =>
        r := Fail(Unsupported);
      case UnitStruct(_) =>
        r := Fail(Unsupported);
      case UnitVariant(_, variant) =>
        WriteEscapedStr(variant);
        r := Pass;
    }

    /** Drives an `ArraySerializer` over the elements, as serde does for a sequence. */
    method SerializeArray(prefix: string, elems: seq<Value>) returns (r: Outcome)
      modifies this
      ensures out == old(out) + ArrayEmission(prefix, elems, old(indent)).text
      ensures r == ArrayEmission(prefix, elems, old(indent)).outcome
      ensures r.Pass? ==> indent == old(indent)
      decreases SizeOfAll(elems), 2
    {
      ghost var d := old(indent);
      ghost var inner := PushDepth(d);
      var arr := new ArraySerializer(prefix, this);
      var i := 0;
      assert out == old(out) + OpenedElems(prefix, elems[..0], inner).text;
      while i < |elems|
        invariant 0 <= i <= |elems|
        invariant arr.ser == this && arr.prefix == prefix && arr.first == (i > 0)
        invariant OpenedElems(prefix, elems[..i], inner).outcome == Pass
        invariant out == old(out) + OpenedElems(prefix, elems[..i], inner).text
        invariant indent == if i > 0 then inner else d
      {
        ArrayStep(old(out), prefix, elems, i, d);
        r := arr.SerializeElement(elems[i]);
        if r.Fail? {
          return;
        }
        i := i + 1;
      }
      assert elems[..i] == elems;
      ArrayClose(old(out), prefix, elems, d);
      arr.End();
      r := Pass;
    }

    /** The typed-array branch of a compound: the element emitter with the kind's prefix. */
    method SerializeTypedArray(kind: ArrayKind, v: Value) returns (r: Outcome)
      modifies this
      ensures out == old(out) + TypedArrayEmission(kind, v, old(indent)).text
      ensures r == TypedArrayEmission(kind, v, old(indent)).outcome
      ensures r.Pass? ==> indent == old(indent)
      decreases Size(v), 0
    {
      match v
      case Seq(elems) =>
        r := SerializeArray(kind.Prefix(), elems);
      case Bytes(bs) =>
        ByteValuesSize(bs);
        r := SerializeArray(kind.Prefix(), ByteValues(bs));
      case _ =>
        r := Fail(Unsupported);
    }

    /** Drives a `CompoundSerializer` over the entries, key then value, as serde does for a map or struct. */
    method SerializeCompound(entries: seq<Entry>) returns (r: Outcome)
      modifies this
      ensures out == old(out) + CompoundEmission(entries, old(indent)).text
      ensures r == CompoundEmission(entries, old(indent)).outcome
      ensures r.Pass? ==> indent == old(indent)
      decreases SizeOfEntries(entries), 2
    {
      ghost var d := old(indent);
      var cs := new CompoundSerializer(this);
      var i := 0;
      assert out == old(out) + EntriesRun(entries[..0], d).text;
      while i < |entries|
        invariant 0 <= i <= |entries|
        invariant cs.ser == this && cs.key.None? && cs.hasFirst == (i > 0)
        invariant EntriesRun(entries[..i], d).outcome == Pass
        invariant out == old(out) + EntriesRun(entries[..i], d).text
        invariant cs.isCompound == EntriesRun(entries[..i], d).isCompound
        invariant indent == if cs.isCompound then PushDepth(d) else d
      {
        CompoundStep(old(out), entries, i, d);
        cs.SerializeKey(entries[i].key);
        r := cs.SerializeValue(entries[i].value);
        if r.Fail? {
          return;
        }
        i := i + 1;
      }
      CompoundClose(old(out), entries, d);
      cs.End();
      r := Pass;
    }
  }

  /** The emitter for `[...]`; `first` records whether an element was written. */
  class ArraySerializer {
    var first: bool
    const ser: Serializer
    const prefix: string

    constructor (prefix: string, ser: Serializer)
      ensures this.prefix == prefix && this.ser == ser && !first
    {
      this.first := false;
      this.ser := ser;
      this.prefix := prefix;
    }

    method SerializeElement(v: Value) returns (r: Outcome)
      modifies this, ser
      ensures first
      ensures var inner := if old(first) then old(ser.indent) else PushDepth(old(ser.indent));
        var step := ElemStep(old(first), prefix, v, inner);
        && ser.out == old(ser.out) + step.text
        && r == step.outcome
        && (r.Pass? ==> ser.indent == inner)
      decreases Size(v), 1
    {
      ghost var o := ser.out;
      ghost var inner := if first then ser.indent else PushDepth(ser.indent);
      ghost var lead: string;
      if !first {
        first := true;
        ser.out := ser.out + "[";
        ser.PushIndent();
        ser.Newline();
        AppendAssoc(o, "[", NewlineText(inner));
        ser.out := ser.out + prefix;
        AppendAssoc(o, "[" + NewlineText(inner), prefix);
        lead := "[" + NewlineText(inner) + prefix;
      } else {
        ser.out := ser.out + ",";
        lead := ",";
      }
      ser.Newline();
      AppendAssoc(o, lead, NewlineText(inner));
      r := ser.Serialize(v);
      AppendAssoc(o, lead + NewlineText(inner), Emit(v, inner).text);
    }

    method End()
      modifies ser
      ensures ser.out == old(ser.out) + (if first then NewlineText(PopDepth(old(ser.indent))) + "]" else "[" + prefix + "]")
      ensures ser.indent == if first then PopDepth(old(ser.indent)) else old(ser.indent)
    {
      ghost var o := ser.out;
      if first {
        ser.PopIndent();
        ser.Newline();
        AppendAssoc(o, NewlineText(PopDepth(old(ser.indent))), "]");
      } else {
        ser.out := ser.out + "[";
        ser.out := ser.out + prefix;
        AppendAssoc(o, "[", prefix);
        AppendAssoc(o, "[" + prefix, "]");
      }
      ser.out := ser.out + "]";
    }
  }

  /**
   * The emitter for `{...}`: `isCompound` records whether `{` was written,
   * `hasFirst` whether any value was, and `key` the name waiting for its value.
   */
  class CompoundSerializer {
    const ser: Serializer
    var isCompound: bool
    var hasFirst: bool
    var key: Option<string>

    constructor (ser: Serializer)
      ensures this.ser == ser && !isCompound && !hasFirst && key == None
    {
      this.ser := ser;
      isCompound := false;
      hasFirst := false;
      key := None;
    }

    /** The key arrives already rendered to its name; it waits for its value. */
    method SerializeKey(name: string)
      modifies this
      ensures key == Some(name) && isCompound == old(isCompound) && hasFirst == old(hasFirst)
    {
      key := Some(name);
    }

    /**
     * Takes the waiting key (an error if there is none) and writes one
     * entry; the indentation moves one level in when this entry opens `{`.
     */
    method SerializeValue(v: Value) returns (r: Outcome)
      modifies this, ser
      ensures key == None
      ensures old(key).None? ==>
        && r == Fail(ValueBeforeKey)
        && ser.out == old(ser.out) && ser.indent == old(ser.indent)
        && isCompound == old(isCompound) && hasFirst == old(hasFirst)
      ensures old(key).Some? ==>
        var step := EntryStep(old(isCompound), old(hasFirst), Entry(old(key).value, v), old(ser.indent));
        && hasFirst
        && ser.out == old(ser.out) + step.text
        && r == step.outcome
        && isCompound == step.isCompound
        && (r.Pass? ==> ser.indent == if isCompound && !old(isCompound) then PushDepth(old(ser.indent)) else old(ser.indent))
      decreases Size(v), 2
    {
      var taken := key;
      key := None;
      if taken.None? {
        return Fail(ValueBeforeKey);
      }
      var name := taken.value;
      ghost var o := ser.out;
      ghost var d := ser.indent;
      ghost var sep: string := "";
      if !hasFirst {
        hasFirst := true;
        assert o + sep == o;
      } else {
        ser.out := ser.out + ",";
        ser.Newline();
        AppendAssoc(o, ",", NewlineText(d));
        sep := "," + NewlineText(d);
      }
      match SentinelKind(name)
      case Some(kind) =>
        r := ser.SerializeTypedArray(kind, v);
        AppendAssoc(o, sep, TypedArrayEmission(kind, v, d).text);
      case None =>
        r := WriteNamedValue(name, v);
        AppendAssoc(o, sep, NamedValue(old(isCompound), Entry(name, v), d).text);
    }

    /** The ordinary-key part of `serialize_value`, after the separator. */
    method WriteNamedValue(name: string, v: Value) returns (r: Outcome)
      modifies this, ser
      ensures key == old(key) && hasFirst == old(hasFirst) && isCompound
      ensures var named := NamedValue(old(isCompound), Entry(name, v), old(ser.indent));
        && ser.out == old(ser.out) + named.text
        && r == named.outcome
        && (r.Pass? ==> ser.indent == if old(isCompound) then old(ser.indent) else PushDepth(old(ser.indent)))
      decreases Size(v), 1
    {
      ghost var o := ser.out;
      ghost var inner := if isCompound then ser.indent else PushDepth(ser.indent);
      ghost var open: string := "";
      if !isCompound {
        isCompound := true;
        ser.out := ser.out + "{";
        ser.PushIndent();
        ser.Newline();
        AppendAssoc(o, "{", NewlineText(inner));
        open := "{" + NewlineText(inner);
      } else {
        assert o + open == o;
      }
      ser.out := ser.out + name;
      AppendAssoc(o, open, name);
      var colon := if ser.indent.Some? then ": " else ":";
      ser.out := ser.out + colon;
      AppendAssoc(o, open + name, colon);
      r := ser.Serialize(v);
      AppendAssoc(o, open + name + colon, Emit(v, inner).text);
    }

    method End()
      modifies ser
      ensures ser.out == old(ser.out) + (if isCompound then NewlineText(PopDepth(old(ser.indent))) + "}"
                                         else if !hasFirst then "{}" else "")
      ensures ser.indent == if isCompound then PopDepth(old(ser.indent)) else old(ser.indent)
    {
      ghost var o := ser.out;
      if isCompound {
        ser.PopIndent();
        ser.Newline();
        AppendAssoc(o, NewlineText(PopDepth(old(ser.indent))), "}");
        ser.out := ser.out + "}";
      } else if !hasFirst {
        ser.out := ser.out + "{}";
      } else {
        assert o + "" == o;
      }
    }
  }
}

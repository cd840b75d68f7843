/**
 * The state bit-layout packer (complex-shader.js, makeStateLayout): the
 * declared state fields are placed, in declaration order, into a 32-bit cell
 * record of four bytes. A flag takes one bit; a number of length L takes L
 * bits split into spans that never cross a byte boundary.
 */
module Layout {
  import opened Wrappers

  /** A state declaration's `type`: a flag, a number with its `length`, or anything else (ignored). */
  datatype FieldKind = Flag | Number(length: int) | Other(typeName: string)

  datatype FieldDecl = FieldDecl(name: string, kind: FieldKind)

  /** Bits `from..to` (inclusive) of byte `byte`. */
  datatype Span = Span(byte: nat, from: nat, to: nat)

  datatype FieldLayout = FlagAt(byte: nat, bit: nat) | NumberAt(spans: seq<Span>)

  /** One key of the layout record; the record's keys keep insertion order. */
  datatype Entry = Entry(name: string, field: FieldLayout)

  /** The packer's `byte`/`bit` counters. */
  datatype Cursor = Cursor(byte: nat, bit: nat)

  datatype Packing = Packing(layout: seq<Entry>, cursor: Cursor)

  datatype LayoutError = TooManyBits(used: int)

  /** The number of bits a cell record holds. */
  const CellBits := 32

  function Min(a: int, b: int): int {
    if a <= b then a else b
  }

  /** The absolute bit index a cursor points at. */
  function Position(c: Cursor): int {
    c.byte * 8 + c.bit
  }

  /** Move the cursor `len` bits on within its byte, rolling to the next byte at bit 8. */
  function Advance(c: Cursor, len: nat): (r: Cursor)
    requires c.bit + len <= 8
    ensures r.bit < 8 && Position(r) == Position(c) + len
  {
    if c.bit + len == 8 then Cursor(c.byte + 1, 0) else Cursor(c.byte, c.bit + len)
  }

  /** The spans of a number with `remaining` bits left to place from cursor `c`, and the cursor after them. */
  function Spans(remaining: int, c: Cursor): (r: (seq<Span>, Cursor))
    requires c.bit < 8
    ensures r.1.bit < 8
    decreases remaining
  {
    if remaining <= 0 then ([], c)
    else
      var len := Min(remaining, 8 - c.bit);
      var rest := Spans(remaining - len, Advance(c, len));
      ([Span(c.byte, c.bit, c.bit + len - 1)] + rest.0, rest.1)
  }

  /** Where `name` is in the layout record, or `|layout|` when it is not a key yet. */
  function IndexOf(layout: seq<Entry>, name: string): (k: nat)
    ensures k <= |layout|
    ensures k < |layout| ==> layout[k].name == name
    ensures forall j :: 0 <= j < k ==> layout[j].name != name
  {
    if layout == [] then 0
    else if layout[0].name == name then 0
    else 1 + IndexOf(layout[1..], name)
  }

  /** `layout[name] = f`: an existing key keeps its place, a new key goes last. */
  function Put(layout: seq<Entry>, name: string, f: FieldLayout): seq<Entry> {
    var k := IndexOf(layout, name);
    if k < |layout| then layout[k := Entry(name, f)] else layout + [Entry(name, f)]
  }

  /** One iteration of the packer's loop over the configuration. */
  function Place(p: Packing, d: FieldDecl): (r: Packing)
    requires p.cursor.bit < 8
    ensures r.cursor.bit < 8
  {
    var c := p.cursor;
    match d.kind
    case Flag => Packing(Put(p.layout, d.name, FlagAt(c.byte, c.bit)), Advance(c, 1))
    case Number(length) =>
      var s := Spans(length, c);
      Packing(Put(p.layout, d.name, NumberAt(s.0)), s.1)
    case Other(_) => p
  }

  /** The layout and cursor after packing `config` from bit 0 of byte 0. */
  function Pack(config: seq<FieldDecl>): (r: Packing)
    ensures r.cursor.bit < 8
    decreases |config|
  {
    if config == [] then Packing([], Cursor(0, 0))
    else Place(Pack(config[..|config| - 1]), config[|config| - 1])
  }

  /** makeStateLayout's result: the packed layout, or the error when more than 32 bits are used. */
  function StateLayout(config: seq<FieldDecl>): Result<seq<Entry>, LayoutError> {
    Finish(Pack(config))
  }

  /** The check after the packer's loop: more than 32 bits used is an error. */
  function Finish(p: Packing): Result<seq<Entry>, LayoutError> {
    if Position(p.cursor) > CellBits then Err(TooManyBits(Position(p.cursor))) else Ok(p.layout)
  }

  /** The inner loop of makeStateLayout: a number's spans, starting at byte `byte`, bit `bit`. */
  method NumberSpans(length: int, byte0: nat, bit0: nat) returns (spans: seq<Span>, byte: nat, bit: nat)
    requires bit0 < 8
    ensures (spans, Cursor(byte, bit)) == Spans(length, Cursor(byte0, bit0))
  {
    byte, bit := byte0, bit0;
    var remaining := length;
    spans := [];
    assert [] + Spans(length, Cursor(byte0, bit0)).0 == Spans(length, Cursor(byte0, bit0)).0;
    while remaining > 0
      invariant bit < 8
      invariant Spans(length, Cursor(byte0, bit0)).0 == spans + Spans(remaining, Cursor(byte, bit)).0
      invariant Spans(length, Cursor(byte0, bit0)).1 == Spans(remaining, Cursor(byte, bit)).1
      decreases remaining
    {
      var span, remaining', byte', bit' := NextSpan(remaining, byte, bit);
      Assoc(spans, [span], Spans(remaining', Cursor(byte', bit')).0);
      spans := spans + [span];
      remaining, byte, bit := remaining', byte', bit';
    }
    assert spans + [] == spans;
  }

  /** One iteration of the span loop: the span at the cursor, and the counters after it. */
  method NextSpan(remaining: int, byte: nat, bit: nat) returns (span: Span, remaining': int, byte': nat, bit': nat)
    requires bit < 8 && remaining > 0
    ensures bit' < 8 && remaining' < remaining
    ensures Spans(remaining, Cursor(byte, bit)) ==
      ([span] + Spans(remaining', Cursor(byte', bit')).0, Spans(remaining', Cursor(byte', bit')).1)
  {
    var len := Min(remaining, 8 - bit);
    span := Span(byte, bit, bit + len - 1);
    remaining' := remaining - len;
    byte', bit' := byte, bit + len;
    if bit' == 8 {
      byte' := byte' + 1;
      bit' := 0;
    }
    assert Cursor(byte', bit') == Advance(Cursor(byte, bit), len);
  }

  lemma Assoc(a: seq<Span>, b: seq<Span>, c: seq<Span>)
    ensures a + (b + c) == (a + b) + c
  {
  }

  /** makeStateLayout: the loop over the fields, then the bit-count check. */
  method MakeStateLayout(config: seq<FieldDecl>) returns (r: Result<seq<Entry>, LayoutError>)
    ensures r == StateLayout(config)
  {
    var layout, byte, bit := PackFields(config);
    r := CheckBits(layout, byte, bit);
  }

  /** makeStateLayout's loop: every field placed in turn from bit 0 of byte 0. */
  method PackFields(config: seq<FieldDecl>) returns (layout: seq<Entry>, byte: nat, bit: nat)
    ensures Pack(config) == Packing(layout, Cursor(byte, bit))
  {
    byte, bit := 0, 0;
    layout := [];
    var i := 0;
    while i < |config|
      invariant 0 <= i <= |config|
      invariant bit < 8
      invariant Pack(config[..i]) == Packing(layout, Cursor(byte, bit))
    {
      layout, byte, bit := PlaceNext(config, i, layout, byte, bit);
      i := i + 1;
    }
    assert config[..i] == config;
  }

  /** One pass of makeStateLayout's loop: field `i` placed after the fields before it. */
  method PlaceNext(config: seq<FieldDecl>, i: nat, layout0: seq<Entry>, byte0: nat, bit0: nat)
      returns (layout: seq<Entry>, byte: nat, bit: nat)
    requires i < |config| && bit0 < 8
    requires Pack(config[..i]) == Packing(layout0, Cursor(byte0, bit0))
    ensures bit < 8
    ensures Pack(config[..i + 1]) == Packing(layout, Cursor(byte, bit))
  {
    PackSnoc(config, i);
    layout, byte, bit := PlaceField(layout0, byte0, bit0, config[i]);
  }

  /** The check after makeStateLayout's loop: more than 32 bits used is an error. */
  method CheckBits(layout: seq<Entry>, byte: nat, bit: nat) returns (r: Result<seq<Entry>, LayoutError>)
    ensures r == Finish(Packing(layout, Cursor(byte, bit)))
  {
    if byte * 8 + bit > CellBits {
      return Err(TooManyBits(byte * 8 + bit));
    }
    return Ok(layout);
  }

  /** Packing one more field places it after the fields before it. */
  lemma PackSnoc(config: seq<FieldDecl>, i: nat)
    requires i < |config|
    ensures Pack(config[..i + 1]) == Place(Pack(config[..i]), config[i])
  {
    var prefix := config[..i + 1];
    assert prefix[..|prefix| - 1] == config[..i] && prefix[|prefix| - 1] == config[i];
    assert Pack(prefix) == Place(Pack(prefix[..|prefix| - 1]), prefix[|prefix| - 1]);
  }

  /** The body of makeStateLayout's loop: one field placed at byte `byte0`, bit `bit0`. */
  method PlaceField(layout0: seq<Entry>, byte0: nat, bit0: nat, v: FieldDecl) returns (layout: seq<Entry>, byte: nat, bit: nat)
    requires bit0 < 8
    ensures bit < 8
    ensures Packing(layout, Cursor(byte, bit)) == Place(Packing(layout0, Cursor(byte0, bit0)), v)
  {
    layout, byte, bit := layout0, byte0, bit0;
    match v.kind {
      case Flag =>
        layout := Put(layout, v.name, FlagAt(byte, bit));
        bit := bit + 1;
        if bit == 8 {
          byte := byte + 1;
          bit := 0;
        }
      case Number(length) =>
        var spans;
        spans, byte, bit := NumberSpans(length, byte, bit);
        layout := Put(layout, v.name, NumberAt(spans));
      case Other(_) =>
    }
  }

  // ---------------------------------------------------------------------------
  // Properties
  // ---------------------------------------------------------------------------

  /** The number of bits a field declares: one for a flag, its length for a number. */
  function FieldWidth(d: FieldDecl): nat {
    match d.kind
    case Flag => 1
    case Number(length) => if length > 0 then length else 0
    case Other(_) => 0
  }

  /** The total number of bits the fields declare. */
  function Width(config: seq<FieldDecl>): nat
    decreases |config|
  {
    if config == [] then 0 else Width(config[..|config| - 1]) + FieldWidth(config[|config| - 1])
  }

  function SpanLength(s: Span): int {
    s.to - s.from + 1
  }

  function TotalLength(spans: seq<Span>): int {
    if spans == [] then 0 else SpanLength(spans[0]) + TotalLength(spans[1..])
  }

  /** The absolute index of a span's first bit, and one past its last. */
  function SpanStart(s: Span): int {
    s.byte * 8 + s.from
  }

  function SpanEnd(s: Span): int {
    s.byte * 8 + s.to + 1
  }

  /** One unfolding of `Spans`: the span at the cursor, then the spans of the rest. */
  lemma SpansCons(remaining: int, c: Cursor)
    requires c.bit < 8 && remaining > 0
    ensures var len := Min(remaining, 8 - c.bit);
      var rest := Spans(remaining - len, Advance(c, len));
      var spans := Spans(remaining, c).0;
      && Spans(remaining, c) == ([Span(c.byte, c.bit, c.bit + len - 1)] + rest.0, rest.1)
      && |spans| == |rest.0| + 1 && spans[0] == Span(c.byte, c.bit, c.bit + len - 1)
      && (forall k :: 1 <= k < |spans| ==> spans[k] == rest.0[k - 1])
  {
  }

  /** A number's spans hold exactly its length in bits, and the cursor ends that many bits on. */
  lemma {:induction false} SpansLength(remaining: int, c: Cursor)
    requires c.bit < 8
    ensures TotalLength(Spans(remaining, c).0) == (if remaining > 0 then remaining else 0)
    ensures Position(Spans(remaining, c).1) == Position(c) + (if remaining > 0 then remaining else 0)
    decreases remaining
  {
    if remaining > 0 {
      var len := Min(remaining, 8 - c.bit);
      var c' := Advance(c, len);
      var rest := Spans(remaining - len, c');
      SpansCons(remaining, c);
      SpansLength(remaining - len, c');
      var spans := Spans(remaining, c).0;
      assert spans[0] == Span(c.byte, c.bit, c.bit + len - 1) && spans[1..] == rest.0;
      assert TotalLength(spans) == len + TotalLength(rest.0);
    }
  }

  /**
   * Each span lies in one byte, 0 <= from <= to <= 7; the first starts at
   * the cursor and every later one at bit 0 of the byte after its
   * predecessor's.
   */
  lemma {:induction false} SpansInBytes(remaining: int, c: Cursor)
    requires c.bit < 8
    ensures var spans := Spans(remaining, c).0;
      && (forall k :: 0 <= k < |spans| ==> spans[k].from <= spans[k].to <= 7)
      && (spans != [] ==> spans[0].byte == c.byte && spans[0].from == c.bit)
      && (forall k :: 0 < k < |spans| ==> spans[k].from == 0 && spans[k].byte == spans[k - 1].byte + 1)
    decreases remaining
  {
    if remaining > 0 {
      var len := Min(remaining, 8 - c.bit);
      var c' := Advance(c, len);
      SpansCons(remaining, c);
      SpansInBytes(remaining - len, c');
      var rest := Spans(remaining - len, c').0;
      var spans := Spans(remaining, c).0;
      forall k | 0 < k < |spans|
        ensures spans[k].from == 0 && spans[k].byte == spans[k - 1].byte + 1
      {
        assert spans[k] == rest[k - 1];
        if k == 1 {
          // the first span filled its byte, so the next one starts a new byte
          assert c' == Cursor(c.byte + 1, 0);
        }
      }
    }
  }

  /** The spans cover consecutive absolute bits, from the cursor to where the cursor ends. */
  lemma {:induction false} SpansContiguous(remaining: int, c: Cursor)
    requires c.bit < 8
    ensures var r := Spans(remaining, c);
      && (r.0 != [] ==> SpanStart(r.0[0]) == Position(c))
      && (forall k :: 0 < k < |r.0| ==> SpanStart(r.0[k]) == SpanEnd(r.0[k - 1]))
      && (r.0 != [] ==> SpanEnd(r.0[|r.0| - 1]) == Position(r.1))
    decreases remaining
  {
    if remaining > 0 {
      var len := Min(remaining, 8 - c.bit);
      var c' := Advance(c, len);
      SpansCons(remaining, c);
      SpansContiguous(remaining - len, c');
      var rest := Spans(remaining - len, c');
      var spans := Spans(remaining, c).0;
      assert SpanEnd(spans[0]) == Position(c');
      forall k | 0 < k < |spans|
        ensures SpanStart(spans[k]) == SpanEnd(spans[k - 1])
      {
        assert spans[k] == rest.0[k - 1];
      }
      if rest.0 == [] {
        assert rest.1 == c';
      } else {
        assert spans[|spans| - 1] == rest.0[|rest.0| - 1];
      }
    }
  }

  /** The packer's cursor invariant: bit < 8 and the cursor sits at the declared width. */
  lemma {:induction false} PackPosition(config: seq<FieldDecl>)
    ensures Pack(config).cursor.bit < 8
    ensures Position(Pack(config).cursor) == Width(config)
    decreases |config|
  {
    if config != [] {
      var init := config[..|config| - 1];
      var d := config[|config| - 1];
      PackPosition(init);
      if d.kind.Number? {
        SpansLength(d.kind.length, Pack(init).cursor);
      }
    }
  }

  /** makeStateLayout fails exactly when the fields declare more than 32 bits. */
  lemma StateLayoutFails(config: seq<FieldDecl>)
    ensures StateLayout(config).Err? <==> Width(config) > CellBits
    ensures StateLayout(config).Err? ==> StateLayout(config).error == TooManyBits(Width(config))
  {
    PackPosition(config);
  }

  /**
   * A flag is recorded at the current byte and bit and moves the cursor on
   * by one bit, to bit 0 of the next byte when it took bit 7.
   */
  lemma PlaceFlag(p: Packing, name: string)
    requires p.cursor.bit < 8
    ensures var r := Place(p, FieldDecl(name, Flag));
      && Entry(name, FlagAt(p.cursor.byte, p.cursor.bit)) in r.layout
      && r.cursor == (if p.cursor.bit == 7 then Cursor(p.cursor.byte + 1, 0) else Cursor(p.cursor.byte, p.cursor.bit + 1))
  {
    var k := IndexOf(p.layout, name);
    var r := Place(p, FieldDecl(name, Flag));
    if k < |p.layout| {
      assert r.layout[k] == Entry(name, FlagAt(p.cursor.byte, p.cursor.bit));
    } else {
      assert r.layout[|p.layout|] == Entry(name, FlagAt(p.cursor.byte, p.cursor.bit));
    }
  }

  /** The names a layout record holds. */
  function Names(layout: seq<Entry>): set<string> {
    set k | 0 <= k < |layout| :: layout[k].name
  }

  predicate DistinctNames(layout: seq<Entry>) {
    forall i, j :: 0 <= i < j < |layout| ==> layout[i].name != layout[j].name
  }

  /** The names of the fields that are placed (flags and numbers). */
  function PlacedNames(config: seq<FieldDecl>): set<string> {
    set k | 0 <= k < |config| && !config[k].kind.Other? :: config[k].name
  }

  lemma PutNames(layout: seq<Entry>, name: string, f: FieldLayout)
    requires DistinctNames(layout)
    ensures DistinctNames(Put(layout, name, f))
    ensures Names(Put(layout, name, f)) == Names(layout) + {name}
  {
    var k := IndexOf(layout, name);
    var r := Put(layout, name, f);
    if k < |layout| {
      assert forall i :: 0 <= i < |r| ==> r[i].name == layout[i].name;
    } else {
      assert r == layout + [Entry(name, f)];
      forall x
        ensures x in Names(r) <==> x in Names(layout) + {name}
      {
        if x in Names(layout) {
          var i :| 0 <= i < |layout| && layout[i].name == x;
          assert r[i].name == x;
        }
        if x == name {
          assert r[|layout|].name == x;
        }
      }
    }
  }

  /** Every placed field has exactly one key in the layout, and nothing else does. */
  lemma {:induction false} PackNames(config: seq<FieldDecl>)
    ensures DistinctNames(Pack(config).layout)
    ensures Names(Pack(config).layout) == PlacedNames(config)
    decreases |config|
  {
    if config != [] {
      var init := config[..|config| - 1];
      var d := config[|config| - 1];
      var p := Pack(init);
      PackNames(init);
      assert Pack(config) == Place(p, d);
      if !d.kind.Other? {
        var f := if d.kind.Flag? then FlagAt(p.cursor.byte, p.cursor.bit)
          else NumberAt(Spans(d.kind.length, p.cursor).0);
        assert Pack(config).layout == Put(p.layout, d.name, f);
        PutNames(p.layout, d.name, f);
      }
      PlacedNamesSnoc(config);
    }
  }

  lemma PlacedNamesSnoc(config: seq<FieldDecl>)
    requires config != []
    ensures PlacedNames(config) ==
      PlacedNames(config[..|config| - 1]) + (if config[|config| - 1].kind.Other? then {} else {config[|config| - 1].name})
  {
    var init := config[..|config| - 1];
    assert forall k :: 0 <= k < |init| ==> init[k] == config[k];
  }

  /** A placed field stays inside the bytes: a flag's bit and every span's bits are within 0..7. */
  predicate FieldInBytes(f: FieldLayout) {
    match f
    case FlagAt(_, bit) => bit < 8
    case NumberAt(spans) => forall k :: 0 <= k < |spans| ==> spans[k].from <= spans[k].to <= 7
  }

  predicate LayoutInBytes(layout: seq<Entry>) {
    forall i :: 0 <= i < |layout| ==> FieldInBytes(layout[i].field)
  }

  lemma PutInBytes(layout: seq<Entry>, name: string, f: FieldLayout)
    requires LayoutInBytes(layout) && FieldInBytes(f)
    ensures LayoutInBytes(Put(layout, name, f))
  {
  }

  /** A layout makeStateLayout returns keeps every field inside its bytes. */
  lemma StateLayoutInBytes(config: seq<FieldDecl>)
    ensures StateLayout(config).Ok? ==> LayoutInBytes(StateLayout(config).value)
  {
    var p := Pack(config);
    PackInBytes(config);
    assert StateLayout(config) == Finish(p);
    FinishInBytes(p);
  }

  lemma FinishInBytes(p: Packing)
    requires LayoutInBytes(p.layout)
    ensures Finish(p).Ok? ==> LayoutInBytes(Finish(p).value)
  {
  }

  /** Every field of a packed layout lies inside its bytes. */
  lemma {:induction false} PackInBytes(config: seq<FieldDecl>)
    ensures LayoutInBytes(Pack(config).layout)
    decreases |config|
  {
    if config != [] {
      var init := config[..|config| - 1];
      var d := config[|config| - 1];
      var p := Pack(init);
      PackInBytes(init);
      match d.kind
      case Flag =>
        PutInBytes(p.layout, d.name, FlagAt(p.cursor.byte, p.cursor.bit));
      case Number(length) =>
        SpansInBytes(length, p.cursor);
        PutInBytes(p.layout, d.name, NumberAt(Spans(length, p.cursor).0));
      case Other(_) =>
    }
  }
}

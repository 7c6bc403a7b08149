/** Where a sealed value lives, and the associated data that binds it there. */
module ContentContexts {
  import opened Wrappers
  import opened ByteStrings

  /** A purpose plus labelled stable ids, each held as its UTF-8 bytes. */
  datatype Context = Context(purpose: Slice, fields: seq<(Slice, Slice)>)

  const AAD_LABEL := Ascii("ryu-content-seal-v1")
  const STORE_LABEL := Ascii("store")
  const PURPOSE_LABEL := Ascii("purpose")

  function Part(part: Slice): Bytes {
    BigEndian(|part|, 8) + part
  }

  function EncodeParts(parts: seq<Slice>): Bytes {
    if parts == [] then [] else Part(parts[0]) + EncodeParts(parts[1..])
  }

  function FieldParts(fields: seq<(Slice, Slice)>): seq<Slice> {
    if fields == [] then [] else [fields[0].0, fields[0].1] + FieldParts(fields[1..])
  }

  function HeadParts(store: Slice, purpose: Slice): seq<Slice> {
    [AAD_LABEL, STORE_LABEL, store, PURPOSE_LABEL, purpose]
  }

  function ContextParts(store: Slice, context: Context): seq<Slice> {
    HeadParts(store, context.purpose) + FieldParts(context.fields)
  }

  function AssociatedDataOf(store: Slice, context: Context): Bytes {
    EncodeParts(ContextParts(store, context))
  }

  method PushPart(buffer: Bytes, part: Slice) returns (out: Bytes)
    ensures out == buffer + Part(part)
  {
    out := buffer + BigEndian(|part|, 8);
    out := out + part;
  }

  lemma {:induction false} EncodeAppend(parts: seq<Slice>, more: seq<Slice>)
    ensures EncodeParts(parts + more) == EncodeParts(parts) + EncodeParts(more)
  {
    if parts == [] {
      assert parts + more == more;
    } else {
      assert (parts + more)[1..] == parts[1..] + more;
      EncodeAppend(parts[1..], more);
    }
  }

  lemma {:induction false} FieldPartsAppend(fields: seq<(Slice, Slice)>, field: (Slice, Slice))
    ensures FieldParts(fields + [field]) == FieldParts(fields) + [field.0, field.1]
  {
    if fields == [] {
      assert fields + [field] == [field];
      assert [field][1..] == [];
    } else {
      assert (fields + [field])[1..] == fields[1..] + [field];
      FieldPartsAppend(fields[1..], field);
    }
  }

  lemma EncodeOne(done: seq<Slice>, part: Slice)
    ensures EncodeParts(done + [part]) == EncodeParts(done) + Part(part)
  {
    EncodeAppend(done, [part]);
    assert EncodeParts([part]) == Part(part) + EncodeParts([]);
  }

  lemma EncodeHead(a: Slice, b: Slice, c: Slice, d: Slice, e: Slice)
    ensures EncodeParts([a, b, c, d, e]) == [] + Part(a) + Part(b) + Part(c) + Part(d) + Part(e)
  {
    EncodeOne([], a);
    assert [] + [a] == [a];
    EncodeOne([a], b);
    assert [a] + [b] == [a, b];
    EncodeOne([a, b], c);
    assert [a, b] + [c] == [a, b, c];
    EncodeOne([a, b, c], d);
    assert [a, b, c] + [d] == [a, b, c, d];
    EncodeOne([a, b, c, d], e);
    assert [a, b, c, d] + [e] == [a, b, c, d, e];
  }

  lemma NoFields(head: seq<Slice>, fields: seq<(Slice, Slice)>)
    ensures head + FieldParts(fields[..0]) == head
  {
  }

  lemma EncodeField(head: seq<Slice>, fields: seq<(Slice, Slice)>, i: nat)
    requires i < |fields|
    ensures EncodeParts(head + FieldParts(fields[..i + 1])) == EncodeParts(head + FieldParts(fields[..i])) + Part(fields[i].0) + Part(fields[i].1)
  {
    hide EncodeParts, FieldParts, Part;
    var done := head + FieldParts(fields[..i]);
    EncodeOne(done, fields[i].0);
    EncodeOne(done + [fields[i].0], fields[i].1);
    assert fields[..i + 1] == fields[..i] + [fields[i]];
    FieldPartsAppend(fields[..i], fields[i]);
    assert done + [fields[i].0] + [fields[i].1] == head + FieldParts(fields[..i + 1]);
  }

  method PushFields(buffer: Bytes, ghost head: seq<Slice>, fields: seq<(Slice, Slice)>) returns (out: Bytes)
    requires buffer == EncodeParts(head)
    ensures out == EncodeParts(head + FieldParts(fields))
  {
    hide EncodeParts, FieldParts, Part;
    out := buffer;
    var i := 0;
    NoFields(head, fields);
    while i < |fields|
      invariant 0 <= i <= |fields|
      invariant out == EncodeParts(head + FieldParts(fields[..i]))
    {
      var (name, value) := fields[i];
      EncodeField(head, fields, i);
      out := PushPart(out, name);
      out := PushPart(out, value);
      i := i + 1;
    }
    assert fields[..i] == fields;
  }

  /** The canonical associated data, built part by part. */
  method AssociatedData(store: Slice, context: Context) returns (out: Bytes)
    ensures out == AssociatedDataOf(store, context)
  {
    out := PushPart([], AAD_LABEL);
    out := PushPart(out, STORE_LABEL);
    out := PushPart(out, store);
    out := PushPart(out, PURPOSE_LABEL);
    out := PushPart(out, context.purpose);
    EncodeHead(AAD_LABEL, STORE_LABEL, store, PURPOSE_LABEL, context.purpose);
    ghost var head := HeadParts(store, context.purpose);
    assert out == EncodeParts(head);
    out := PushFields(out, head, context.fields);
  }

  // ── The inverse: a length-prefix parse ─────────────────────────────────────

  function ParseParts(b: Bytes): (r: Option<seq<Slice>>)
    ensures r.Some? ==> EncodeParts(r.value) == b
  {
    if b == [] then Some([])
    else if |b| < 8 then None
    else
      var n := FromBigEndian(b[..8]);
      if n >= SLICE_LIMIT || |b| - 8 < n then None
      else match ParseParts(b[8 + n..])
        case None => None
        case Some(rest) =>
          assert b == BigEndian(n, 8) + b[8..8 + n] + b[8 + n..] by { EncodesBigEndian(b[..8]); }
          var parts: seq<Slice> := [b[8..8 + n]] + rest;
          assert parts[1..] == rest;
          Some(parts)
  }

  lemma {:induction false} ParsesParts(parts: seq<Slice>)
    ensures ParseParts(EncodeParts(parts)) == Some(parts)
  {
    if parts != [] {
      var n := |parts[0]|;
      var b := EncodeParts(parts);
      Widths();
      DecodesBigEndian(n, 8);
      assert b[..8] == BigEndian(n, 8);
      assert b[8..8 + n] == parts[0];
      assert b[8 + n..] == EncodeParts(parts[1..]);
      ParsesParts(parts[1..]);
      assert parts == [parts[0]] + parts[1..];
    }
  }

  function ParseFields(parts: seq<Slice>): (r: Option<seq<(Slice, Slice)>>)
    ensures r.Some? ==> FieldParts(r.value) == parts
  {
    if parts == [] then Some([])
    else if |parts| == 1 then None
    else match ParseFields(parts[2..])
      case None => None
      case Some(rest) =>
        assert parts == [parts[0], parts[1]] + parts[2..];
        Some([(parts[0], parts[1])] + rest)
  }

  lemma {:induction false} ParsesFields(fields: seq<(Slice, Slice)>)
    ensures ParseFields(FieldParts(fields)) == Some(fields)
  {
    if fields != [] {
      assert FieldParts(fields)[2..] == FieldParts(fields[1..]);
      ParsesFields(fields[1..]);
      assert fields == [(fields[0].0, fields[0].1)] + fields[1..];
    }
  }

  /** The store and context some associated data names, if it is any. */
  function ParseAssociatedData(b: Bytes): (r: Option<(Slice, Context)>) {
    match ParseParts(b)
    case None => None
    case Some(parts) =>
      if |parts| < 5 || parts[0] != AAD_LABEL || parts[1] != STORE_LABEL || parts[3] != PURPOSE_LABEL then None
      else match ParseFields(parts[5..])
        case None => None
        case Some(fields) => Some((parts[2], Context(parts[4], fields)))
  }

  /** Parsing inverts the encoding, for every store and context ... */
  lemma ParsesAssociatedData(store: Slice, context: Context)
    ensures ParseAssociatedData(AssociatedDataOf(store, context)) == Some((store, context))
  {
    ParsesParts(ContextParts(store, context));
    assert ContextParts(store, context)[5..] == FieldParts(context.fields);
    ParsesFields(context.fields);
  }

  /** ... and nothing else parses: the encoding is canonical. */
  lemma OnlyEncodingsParse(b: Bytes)
    requires ParseAssociatedData(b).Some?
    ensures var (store, context) := ParseAssociatedData(b).value; AssociatedDataOf(store, context) == b
  {
    var (store, context) := ParseAssociatedData(b).value;
    var parts := ParseParts(b).value;
    assert parts == ContextParts(store, context);
  }

  /** No two (store, purpose, labelled ids) encode to the same bytes. */
  lemma AssociatedDataIsInjective(s1: Slice, c1: Context, s2: Slice, c2: Context)
    requires AssociatedDataOf(s1, c1) == AssociatedDataOf(s2, c2)
    ensures s1 == s2 && c1 == c2
  {
    ParsesAssociatedData(s1, c1);
    ParsesAssociatedData(s2, c2);
  }
}

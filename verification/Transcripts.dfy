// The hashed transcripts of src/crypto/voprf.cpp: fields with their lengths before them, and how they are read back.
module Transcripts {
  import opened Types
  import opened Wire

  function Prefixed(data: Bytes): Bytes { U16(|data|) + data }

  // the first n length-prefixed fields of a text, and what follows them
  function ReadFields(text: Bytes, n: nat): Option<(seq<Bytes>, Bytes)> {
    if n == 0 then Some(([], text))
    else
      match ParseField(text)
      case None => None
      case Some((field, rest)) => AddField(field, ReadFields(rest, n - 1))
  }

  function AddField(field: Bytes, read: Option<(seq<Bytes>, Bytes)>): Option<(seq<Bytes>, Bytes)> {
    match read
    case None => None
    case Some((fields, rest)) => Some(([field] + fields, rest))
  }

  lemma ReadFirst(text: Bytes, field: Bytes, rest: Bytes, n: nat, fields: seq<Bytes>, tail: Bytes)
    requires |field| <= 0xFFFF && fields != [] && fields[0] == field
    requires text == Prefixed(field) + rest && ReadFields(rest, n) == Some((fields[1..], tail))
    ensures ReadFields(text, n + 1) == Some((fields, tail))
  {
    hide ParseField, U16;
    assert text == U16(|field|) + (field + rest);
    FieldParses(text, field, rest);
    assert fields == [field] + fields[1..];
  }

  lemma ReadNone(text: Bytes)
    ensures ReadFields(text, 0) == Some(([], text))
  {
  }

  // nothing else is read as these fields and this rest
  lemma {:induction false} ReadFieldsInjective(t: Bytes, t': Bytes, n: nat)
    requires ReadFields(t, n).Some? && ReadFields(t', n) == ReadFields(t, n)
    ensures t == t'
  {
    if n > 0 {
      hide ParseField, U16;
      var (field, rest) := ParseField(t).value;
      var (field', rest') := ParseField(t').value;
      AddedField(field, ReadFields(rest, n - 1), field', ReadFields(rest', n - 1));
      ReadFieldsInjective(rest, rest', n - 1);
      ParsedFieldLength(t);
      FieldParses(t, field, rest);
      FieldParses(t', field', rest');
    }
  }

  lemma AddedField(field: Bytes, read: Option<(seq<Bytes>, Bytes)>, field': Bytes, read': Option<(seq<Bytes>, Bytes)>)
    requires AddField(field, read).Some? && AddField(field', read') == AddField(field, read)
    ensures field == field' && read == read' && read.Some?
  {
    assert ([field] + read.value.0)[0] == field && ([field] + read.value.0)[1..] == read.value.0;
    assert ([field'] + read'.value.0)[0] == field' && ([field'] + read'.value.0)[1..] == read'.value.0;
  }
}

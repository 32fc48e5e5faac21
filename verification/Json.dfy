/** The JSON text of a Go `[]uint16`, as the operator and the server exchange it. */
module Json {
  import opened Text
  import opened Decimal

  /** A Go slice value: nil is distinct from an empty slice when marshalled. */
  datatype Slice = Nil | Of(ids: seq<Identity>) {
    function Elems(): seq<Identity> {
      match this
      case Nil => []
      case Of(ids) => ids
    }
  }

  datatype Decoded = Decoded(slice: Slice) | Malformed

  function DecAll(ids: seq<Identity>): (r: seq<string>)
    ensures |r| == |ids|
    ensures forall i :: 0 <= i < |ids| ==> r[i] == Dec(ids[i])
  {
    seq(|ids|, i requires 0 <= i < |ids| => Dec(ids[i]))
  }

  /** `json.Marshal`. */
  function Marshal(s: Slice): string {
    match s
    case Nil => "null"
    case Of(ids) => "[" + Join(DecAll(ids), ',') + "]"
  }

  /** `json.Unmarshal` into a `[]uint16`, for JSON text without white space. */
  function Unmarshal(text: string): Decoded {
    if text == "null" then Decoded(Nil)
    else if |text| < 2 || text[0] != '[' || text[|text| - 1] != ']' then Malformed
    else if |text| == 2 then Decoded(Of([]))
    else
      var parts := Split(text[1..|text| - 1], ',');
      if forall i :: 0 <= i < |parts| ==> IsJsonUint16(parts[i]) then
        Decoded(Of(seq(|parts|, i requires 0 <= i < |parts| => Value(parts[i]))))
      else Malformed
  }

  /** Every slice survives the trip through JSON, nil included. */
  lemma MarshalRoundTrip(s: Slice)
    ensures Unmarshal(Marshal(s)) == Decoded(s)
  {
    if s.Of? {
      var parts := DecAll(s.ids);
      var text := Marshal(s);
      assert text[0] == '[' && text[|text| - 1] == ']';
      var inner := Join(parts, ',');
      assert text[1..|text| - 1] == inner;
      if s.ids != [] {
        forall i | 0 <= i < |parts| ensures ',' !in parts[i] && IsJsonUint16(parts[i]) && Value(parts[i]) == s.ids[i] {
          DecAvoids(s.ids[i], ',');
          DecIsJsonUint16(s.ids[i]);
        }
        SplitOfJoin(parts, ',');
        JoinNonEmpty(parts);
        var back := seq(|parts|, i requires 0 <= i < |parts| => Value(parts[i]));
        assert back == s.ids;
      }
    }
  }

  lemma JoinNonEmpty(parts: seq<string>)
    requires |parts| >= 1 && parts[0] != ""
    ensures Join(parts, ',') != ""
  {}

  /** Nothing else is accepted: a text decodes to a slice exactly when it is that slice's JSON. */
  lemma UnmarshalExactly(text: string, s: Slice)
    ensures Unmarshal(text) == Decoded(s) <==> text == Marshal(s)
  {
    MarshalRoundTrip(s);
    if Unmarshal(text) == Decoded(s) && s.Of? {
      if |text| == 2 {
        assert text == "[" + "" + "]";
      } else {
        DecodedText(text, s.ids);
      }
    }
  }

  lemma DecodedText(text: string, ids: seq<Identity>)
    requires |text| > 2 && Unmarshal(text) == Decoded(Of(ids))
    ensures text == Marshal(Of(ids))
  {
    var inner := text[1..|text| - 1];
    var parts := Split(inner, ',');
    SplitMeaning(inner, ',');
    assert |ids| == |parts|;
    forall i | 0 <= i < |parts| ensures DecAll(ids)[i] == parts[i] {
      assert IsJsonUint16(parts[i]) && ids[i] == Value(parts[i]);
      DecOfValue(parts[i]);
    }
    assert DecAll(ids) == parts;
    assert text == "[" + inner + "]";
  }

  lemma JoinMore(first: string, rest: seq<string>)
    requires rest != []
    ensures Join([first] + rest, ',') == first + "," + Join(rest, ',')
  {
    assert ([first] + rest)[1..] == rest;
  }

  lemma DecAllMore(i: Identity, rest: seq<Identity>)
    ensures DecAll([i] + rest) == [Dec(i)] + DecAll(rest)
  {}

  /** The shape of that JSON. */
  lemma MarshalShort(i: Identity)
    ensures Marshal(Nil) == "null" && Marshal(Of([])) == "[]" && Marshal(Of([i])) == "[" + Dec(i) + "]"
  {
    assert DecAll([i]) == [Dec(i)];
    assert "[" + "" + "]" == "[]";
  }

  lemma MarshalMore(i: Identity, rest: seq<Identity>)
    requires rest != []
    ensures Marshal(Of([i] + rest)) == "[" + Dec(i) + "," + Marshal(Of(rest))[1..]
  {
    DecAllMore(i, rest);
    JoinMore(Dec(i), DecAll(rest));
    var tail := Join(DecAll(rest), ',') + "]";
    assert Marshal(Of(rest)) == "[" + tail;
    assert Marshal(Of(rest))[1..] == tail;
  }
}

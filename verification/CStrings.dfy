/** NUL-terminated UTF-8 strings inside a byte buffer (`_cstring`). */
module CStrings {
  import opened Bytes
  import opened Utf8

  /** `data.find(0, from, limit)`. */
  function FindZero(data: bytes, from: nat, limit: nat): (r: Option<nat>)
    requires from <= limit <= |data|
    decreases limit - from
    ensures r.Some? ==> from <= r.value < limit && data[r.value] == 0
    ensures forall k :: from <= k < limit && (r.Some? ==> k < r.value) ==> data[k] != 0
  {
    if from == limit then None else if data[from] == 0 then Some(from) else FindZero(data, from + 1, limit)
  }

  function CString(data: bytes, offset: nat, maximum: nat): (r: Option<string>) {
    if offset >= |data| then None
    else
      var limit := if |data| < offset + maximum + 1 then |data| else offset + maximum + 1;
      match FindZero(data, offset, limit)
      case None => None
      case Some(end) => if end - offset > maximum then None else Decode(data[offset..end])
  }

  /** The terminated string `t` stands at `offset`. */
  ghost predicate StandsAt(data: bytes, offset: nat, t: string) {
    && offset + |Encode(t)| < |data|
    && data[offset..offset + |Encode(t)|] == Encode(t)
    && data[offset + |Encode(t)|] == 0
  }

  /** Reading yields `t` exactly when NUL-free `t`, at most `maximum` bytes long, stands there terminated. */
  lemma CStringReads(data: bytes, offset: nat, maximum: nat, t: string)
    ensures CString(data, offset, maximum) == Some(t)
       <==> StandsAt(data, offset, t) && '\0' !in t && |Encode(t)| <= maximum
  {
    hide Encode, Decode;
    var n := |Encode(t)|;
    ZeroFree(t);
    if CString(data, offset, maximum) == Some(t) {
      var limit := if |data| < offset + maximum + 1 then |data| else offset + maximum + 1;
      var end := FindZero(data, offset, limit).value;
      EncodeDecode(data[offset..end]);
      assert offset + n == end;
    }
    if StandsAt(data, offset, t) && '\0' !in t && n <= maximum {
      var limit := if |data| < offset + maximum + 1 then |data| else offset + maximum + 1;
      forall k | offset <= k < offset + n
        ensures data[k] != 0
      {
        assert data[k] == data[offset..offset + n][k - offset];
      }
      assert FindZero(data, offset, limit) == Some(offset + n);
      DecodeEncode(t);
    }
  }
}

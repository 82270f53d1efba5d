/**
 * The parsed Secret document and the decode-and-infer step that rewrites
 * its `data` mapping: every value must be a string holding padded standard
 * base64; its decoded bytes become an integer if `strconv.Atoi` accepts
 * them, else a boolean if `strconv.ParseBool` does, else the bytes stay a
 * string.
 */
module Secrets {
  import opened Wrappers
  import opened Bytes
  import Base64
  import opened Strconv

  /**
   * A value of a YAML mapping as `yaml.Unmarshal` leaves it in a Go
   * `interface{}`.  `Other` stands for every kind the decoder never looks
   * into (floats, null, sequences, nested mappings).
   */
  datatype Value = StrV(s: seq<byte>) | IntV(i: int) | BoolV(b: bool) | Other

  /** The `Secret` record: `metadata` is passed through untouched; a nil `data` map is `None`. */
  datatype Secret = Secret(
    apiVersion: string,
    kind: string,
    metadata: map<string, Value>,
    data: Option<map<string, Value>>)

  /** The document has the fields the decoder needs; an empty `data` map is enough. */
  predicate HasValidStructure(secret: Secret)
  {
    secret.apiVersion != "" && secret.kind != "" && secret.data.Some?
  }

  /** One of the three kinds a decoded entry can take. */
  predicate IsTyped(v: Value)
  {
    v.IntV? || v.BoolV? || v.StrV?
  }

  /** The typed value of a decoded text: integer first, then boolean, then the text itself. */
  function Infer(text: seq<byte>): (v: Value)
    ensures IsTyped(v)
    ensures v.IntV? <==> Atoi(text).Some?
    ensures v.BoolV? <==> Atoi(text).None? && ParseBool(text).Some?
    ensures v.StrV? ==> v.s == text
    ensures v.IntV? ==> Atoi(text) == Some(v.i)
    ensures v.BoolV? ==> ParseBool(text) == Some(v.b)
    ensures v.IntV? ==> MinInt64 <= v.i <= MaxInt64
  {
    match Atoi(text)
    case Some(n) => IntV(n)
    case None =>
      match ParseBool(text)
      case Some(b) => BoolV(b)
      case None => StrV(text)
  }

  /** The text a typed value is written as. */
  function Format(v: Value): seq<byte>
    requires IsTyped(v)
  {
    match v
    case IntV(n) => Itoa(n)
    case BoolV(b) => FormatBool(b)
    case StrV(s) => s
  }

  /**
   * Inference recovers every value it can produce from the text that value
   * is written as: an integer in the 64-bit range, a boolean, or a string
   * that neither parser accepts.
   */
  lemma InferFormat(v: Value)
    requires v.IntV? ==> MinInt64 <= v.i <= MaxInt64
    requires v.StrV? ==> Atoi(v.s).None? && ParseBool(v.s).None?
    requires IsTyped(v)
    ensures Infer(Format(v)) == v
  {
    match v
    case IntV(n) => AtoiItoa(n);
    case BoolV(b) =>
      assert Atoi(FormatBool(b)).None? by {
        assert !IsDigit(FormatBool(b)[0]);
      }
    case StrV(s) =>
  }

  /**
   * "1" and "0" are integers, never booleans, because `Atoi` is tried
   * first; every other boolean literal becomes a boolean.
   */
  lemma InferBoolLiterals(text: seq<byte>)
    requires text in TrueLiterals + FalseLiterals
    ensures text == [49] ==> Infer(text) == IntV(1)
    ensures text == [48] ==> Infer(text) == IntV(0)
    ensures text != [49] && text != [48] ==> Infer(text) == BoolV(text in TrueLiterals)
  {
    if text == [49] || text == [48] {
      assert Unsigned(text) == text;
      assert DecimalValue(text) == text[0] - 48 by {
        assert text[..0] == [];
      }
    } else {
      assert !IsDigit(text[0]) && text[0] != Plus && text[0] != Minus;
    }
  }

  /** "42", "-7" and "007" (leading zeros allowed) are integers. */
  lemma InferIntegerExamples()
    ensures Infer(Ascii("42")) == IntV(42)
    ensures Infer(Ascii("-7")) == IntV(-7)
    ensures Infer(Ascii("007")) == IntV(7)
  {
    assert Infer(Ascii("42")) == IntV(42) by {
      assert Digits(42) == [52, 50] by {
        assert Digits(4) == [52];
      }
      assert Ascii("42") == [] + Zeros(0) + Digits(42);
      AtoiLeadingZeros([], 0, 42);
    }
    assert Infer(Ascii("-7")) == IntV(-7) by {
      assert Digits(7) == [55];
      assert Ascii("-7") == [Minus] + Zeros(0) + Digits(7);
      AtoiLeadingZeros([Minus], 0, 7);
    }
    assert Infer(Ascii("007")) == IntV(7) by {
      assert Digits(7) == [55];
      assert Zeros(2) == [48, 48];
      assert Ascii("007") == [] + Zeros(2) + Digits(7);
      AtoiLeadingZeros([], 2, 7);
    }
  }

  /** "true" and "false" are booleans. */
  lemma InferBooleanExamples()
    ensures Infer(Ascii("true")) == BoolV(true)
    ensures Infer(Ascii("false")) == BoolV(false)
  {
    assert Ascii("true") == FormatBool(true);
    InferFormat(BoolV(true));
    assert Ascii("false") == FormatBool(false);
    InferFormat(BoolV(false));
  }

  /** "hello world" and the empty text stay strings, byte for byte. */
  lemma InferStringExamples()
    ensures Infer(Ascii("hello world")) == StrV(Ascii("hello world"))
    ensures Infer([]) == StrV([])
  {
    var hello := Ascii("hello world");
    assert !IsDigit(hello[0]) && hello[0] != Plus && hello[0] != Minus;
    assert Unsigned(hello) == hello;
    assert |hello| > 5;
  }

  /** Decodes and infers one entry of `data`; `None` is a non-string value or bad base64. */
  function DecodeEntry(v: Value): (r: Option<Value>)
    ensures r.Some? <==> v.StrV? && Base64.Decode(v.s).Some?
    ensures r.Some? ==> r.value == Infer(Base64.Decode(v.s).value)
  {
    if !v.StrV? then None
    else
      match Base64.Decode(v.s)
      case None => None
      case Some(text) => Some(Infer(text))
  }

  /**
   * An entry written as the base64 encoding of a typed value's text decodes
   * back to that value.
   */
  lemma DecodeEntryEncode(v: Value)
    requires v.IntV? ==> MinInt64 <= v.i <= MaxInt64
    requires v.StrV? ==> Atoi(v.s).None? && ParseBool(v.s).None?
    requires IsTyped(v)
    ensures DecodeEntry(StrV(Base64.Encode(Format(v)))) == Some(v)
  {
    Base64.DecodeEncode(Format(v));
    InferFormat(v);
  }

  /** Whether every entry of `data` decodes. */
  predicate AllDecode(data: map<string, Value>)
  {
    forall k :: k in data ==> DecodeEntry(data[k]).Some?
  }

  /**
   * The `data` mapping after the decode loop, or `None` when the loop
   * sets its failure flag; the result does not depend on the order in
   * which the keys are visited.
   */
  function DecodedData(data: map<string, Value>): (r: Option<map<string, Value>>)
    ensures r.Some? <==> forall k :: k in data ==> data[k].StrV? && Base64.Decode(data[k].s).Some?
    ensures r.Some? ==> r.value.Keys == data.Keys
    ensures r.Some? ==> forall k :: k in r.value ==> IsTyped(r.value[k])
    ensures r.Some? ==> forall k :: k in r.value ==>
      r.value[k] == Infer(Base64.Decode(data[k].s).value)
  {
    if AllDecode(data) then Some(map k | k in data :: DecodeEntry(data[k]).value)
    else None
  }

  /**
   * The decode loop: visits the keys of `data` in an arbitrary order (Go
   * randomises map iteration), overwrites each entry with its inferred
   * value, and stops at the first entry that is not a string or not valid
   * base64, clearing `valid`.  On success the result is `DecodedData`;
   * either way every entry is its original or its decoded value.
   */
  method DecodeData(data: map<string, Value>) returns (valid: bool, result: map<string, Value>)
    ensures valid <==> DecodedData(data).Some?
    ensures valid ==> result == DecodedData(data).value
    ensures result.Keys == data.Keys
    ensures forall k :: k in data ==>
      result[k] == data[k] || DecodeEntry(data[k]) == Some(result[k])
  {
    valid := true;
    result := data;
    var pending := data.Keys;
    while pending != {}
      invariant pending <= data.Keys
      invariant result.Keys == data.Keys
      invariant forall k :: k in pending ==> result[k] == data[k]
      invariant forall k :: k in data && k !in pending ==> DecodeEntry(data[k]) == Some(result[k])
      decreases pending
    {
      var key :| key in pending;
      var value := result[key];
      if !value.StrV? {
        valid := false;
        break;
      }
      var decoded := Base64.Decode(value.s);
      if decoded.None? {
        valid := false;
        break;
      }
      result := result[key := Infer(decoded.value)];
      pending := pending - {key};
    }
    if valid {
      assert AllDecode(data);
      assert result == DecodedData(data).value;
    }
  }
}

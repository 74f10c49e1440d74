/**
  The OCR fragment record (TextData) and its persisted form: a keyed
  container with seven flat entries, the bounding box spread over four
  numeric keys.
 */
module Fragments {

  /** A 128-bit UUID. A new one is drawn whenever a record is created. */
  newtype Uuid = n: int | 0 <= n < 0x1_0000_0000_0000_0000_0000_0000_0000_0000

  function Abs(x: real): (r: real)
    ensures r >= 0.0
    ensures r == x || r == -x
  {
    if x < 0.0 then -x else x
  }

  /**
    A CGRect as stored: an origin and a size, where the size may be negative.
    The `width` and `height` getters of CGRect report the magnitude of the
    stored size; the origin is reported as stored.
   */
  datatype Rect = Rect(x: real, y: real, width: real, height: real) {
    function StdWidth(): real { Abs(width) }
    function StdHeight(): real { Abs(height) }
  }

  /**
    One recognised text region of one sampled frame. Timestamps and
    coordinates are exact reals; the confidence is carried, never read.
   */
  datatype TextData = TextData(id: Uuid, timestamp: real, text: string, confidence: real, box: Rect)

  /**
    The memberwise initializer. The `id` property is initialised by UUID(),
    which is not visible here: the fresh value is a parameter.
   */
  function Init(freshId: Uuid, timestamp: real, text: string, confidence: real, boundingBox: Rect): (t: TextData)
    ensures t.id == freshId
    ensures t.timestamp == timestamp && t.text == text
    ensures t.confidence == confidence && t.box == boundingBox
  {
    TextData(freshId, timestamp, text, confidence, boundingBox)
  }

  /** A JSON value as a keyed decoding container sees it. */
  datatype Value = Null | Bool(b: bool) | Number(n: real) | Str(s: string)

  type Container = map<string, Value>

  /** The CodingKeys enumeration; `id` is deliberately not one of them. */
  datatype CodingKey =
    | Timestamp | Text | Confidence
    | BoundingBoxX | BoundingBoxY | BoundingBoxWidth | BoundingBoxHeight
  {
    function RawValue(): string {
      match this
      case Timestamp => "timestamp"
      case Text => "text"
      case Confidence => "confidence"
      case BoundingBoxX => "boundingBoxX"
      case BoundingBoxY => "boundingBoxY"
      case BoundingBoxWidth => "boundingBoxWidth"
      case BoundingBoxHeight => "boundingBoxHeight"
    }

    /** Only `text` holds a string; every other key holds a number. */
    predicate HoldsString() { this == Text }
  }

  /** The keys in the order in which they are encoded and decoded. */
  const AllKeys: seq<CodingKey> :=
    [Timestamp, Text, Confidence, BoundingBoxX, BoundingBoxY, BoundingBoxWidth, BoundingBoxHeight]

  lemma AllKeysComplete(k: CodingKey)
    ensures k in AllKeys
  {
  }

  /** The failures a keyed decoding container reports. */
  datatype DecodingError =
    | KeyNotFound(key: CodingKey)
    | ValueNotFound(key: CodingKey)
    | TypeMismatch(key: CodingKey)

  datatype Result<T> = Success(value: T) | Failure(error: DecodingError) {
    predicate IsFailure() { Failure? }

    function PropagateFailure<U>(): Result<U>
      requires Failure?
    {
      Failure(error)
    }

    function Extract(): T
      requires Success?
    {
      value
    }
  }

  /** The container holds key `k` with a value of the type decoded for it. */
  predicate Readable(c: Container, k: CodingKey) {
    k.RawValue() in c &&
    if k.HoldsString() then c[k.RawValue()].Str? else c[k.RawValue()].Number?
  }

  /** The error decoding `k` from `c` reports when `k` is not readable. */
  function ErrorAt(c: Container, k: CodingKey): DecodingError {
    if k.RawValue() !in c then KeyNotFound(k)
    else if c[k.RawValue()].Null? then ValueNotFound(k)
    else TypeMismatch(k)
  }

  /** Reads the number stored under a numeric key of a keyed container. */
  function DecodeNumber(c: Container, k: CodingKey): (r: Result<real>)
    requires !k.HoldsString()
    ensures r.Success? <==> Readable(c, k)
    ensures r.Success? ==> Number(r.value) == c[k.RawValue()]
    ensures r.Failure? ==> r.error == ErrorAt(c, k)
  {
    var name := k.RawValue();
    if name !in c then Failure(KeyNotFound(k))
    else match c[name]
      case Number(n) => Success(n)
      case Null => Failure(ValueNotFound(k))
      case _ => Failure(TypeMismatch(k))
  }

  /** Reads the string stored under the text key of a keyed container. */
  function DecodeString(c: Container, k: CodingKey): (r: Result<string>)
    requires k.HoldsString()
    ensures r.Success? <==> Readable(c, k)
    ensures r.Success? ==> Str(r.value) == c[k.RawValue()]
    ensures r.Failure? ==> r.error == ErrorAt(c, k)
  {
    var name := k.RawValue();
    if name !in c then Failure(KeyNotFound(k))
    else match c[name]
      case Str(s) => Success(s)
      case Null => Failure(ValueNotFound(k))
      case _ => Failure(TypeMismatch(k))
  }

  /** The encoder: seven flat entries, the box as origin and reported size. */
  function Encode(t: TextData): (c: Container)
    ensures forall k: CodingKey :: Readable(c, k)
    ensures forall name :: name in c ==> exists k: CodingKey :: k.RawValue() == name
    ensures "id" !in c
    ensures Timestamp.RawValue() in c && c[Timestamp.RawValue()] == Number(t.timestamp)
    ensures Text.RawValue() in c && c[Text.RawValue()] == Str(t.text)
    ensures Confidence.RawValue() in c && c[Confidence.RawValue()] == Number(t.confidence)
    ensures BoundingBoxX.RawValue() in c && c[BoundingBoxX.RawValue()] == Number(t.box.x)
    ensures BoundingBoxY.RawValue() in c && c[BoundingBoxY.RawValue()] == Number(t.box.y)
    ensures BoundingBoxWidth.RawValue() in c && c[BoundingBoxWidth.RawValue()] == Number(Abs(t.box.width))
    ensures BoundingBoxHeight.RawValue() in c && c[BoundingBoxHeight.RawValue()] == Number(Abs(t.box.height))
  {
    map[
      Timestamp.RawValue() := Number(t.timestamp),
      Text.RawValue() := Str(t.text),
      Confidence.RawValue() := Number(t.confidence),
      BoundingBoxX.RawValue() := Number(t.box.x),
      BoundingBoxY.RawValue() := Number(t.box.y),
      BoundingBoxWidth.RawValue() := Number(t.box.StdWidth()),
      BoundingBoxHeight.RawValue() := Number(t.box.StdHeight())
    ]
  }

  /**
    The decoder: reads the seven keys in declaration order and fails at the
    first one that is missing, null or of the wrong type. Other keys (such
    as an `id` a producer may have written) are ignored; the decoded record
    gets a fresh identifier.
   */
  function Decode(c: Container, freshId: Uuid): (r: Result<TextData>)
    ensures r.Success? <==> forall i :: 0 <= i < |AllKeys| ==> Readable(c, AllKeys[i])
    ensures r.Failure? ==>
      exists i :: 0 <= i < |AllKeys| && r.error == ErrorAt(c, AllKeys[i]) && !Readable(c, AllKeys[i]) &&
        forall j :: 0 <= j < i ==> Readable(c, AllKeys[j])
    ensures r.Success? ==> r.value.id == freshId
    ensures r.Success? ==>
      && Readable(c, Timestamp) && Readable(c, Text) && Readable(c, Confidence)
      && Readable(c, BoundingBoxX) && Readable(c, BoundingBoxY)
      && Readable(c, BoundingBoxWidth) && Readable(c, BoundingBoxHeight)
      && Number(r.value.timestamp) == c[Timestamp.RawValue()]
      && Str(r.value.text) == c[Text.RawValue()]
      && Number(r.value.confidence) == c[Confidence.RawValue()]
      && Number(r.value.box.x) == c[BoundingBoxX.RawValue()]
      && Number(r.value.box.y) == c[BoundingBoxY.RawValue()]
      && Number(r.value.box.width) == c[BoundingBoxWidth.RawValue()]
      && Number(r.value.box.height) == c[BoundingBoxHeight.RawValue()]
  {
    assert AllKeys[0] == Timestamp && AllKeys[1] == Text && AllKeys[2] == Confidence;
    assert AllKeys[3] == BoundingBoxX && AllKeys[4] == BoundingBoxY;
    assert AllKeys[5] == BoundingBoxWidth && AllKeys[6] == BoundingBoxHeight;
    var timestamp :- DecodeNumber(c, Timestamp);
    var text :- DecodeString(c, Text);
    var confidence :- DecodeNumber(c, Confidence);
    var x :- DecodeNumber(c, BoundingBoxX);
    var y :- DecodeNumber(c, BoundingBoxY);
    var width :- DecodeNumber(c, BoundingBoxWidth);
    var height :- DecodeNumber(c, BoundingBoxHeight);
    Success(TextData(freshId, timestamp, text, confidence, Rect(x, y, width, height)))
  }

  /** Exactly the names of the seven coding keys are written, seven entries in all. */
  lemma EncodeKeys(t: TextData)
    ensures Encode(t).Keys == set k: CodingKey | k in AllKeys :: k.RawValue()
    ensures |Encode(t)| == 7
  {
    var c := Encode(t);
    var names := {Timestamp.RawValue(), Text.RawValue(), Confidence.RawValue(), BoundingBoxX.RawValue(),
      BoundingBoxY.RawValue(), BoundingBoxWidth.RawValue(), BoundingBoxHeight.RawValue()};
    assert c.Keys == names;
    assert names == set k: CodingKey | k in AllKeys :: k.RawValue();
    NamesDistinct();
  }

  /** The seven key names are distinct. */
  lemma NamesDistinct()
    ensures |{Timestamp.RawValue(), Text.RawValue(), Confidence.RawValue(), BoundingBoxX.RawValue(),
       BoundingBoxY.RawValue(), BoundingBoxWidth.RawValue(), BoundingBoxHeight.RawValue()}| == 7
  {
    assert "boundingBoxX" != "boundingBoxY" by {
      assert "boundingBoxX"[11] != "boundingBoxY"[11];
    }
    assert |"timestamp"| == 9 && |"text"| == 4 && |"confidence"| == 10 && |"boundingBoxX"| == 12;
    assert |"boundingBoxWidth"| == 16 && |"boundingBoxHeight"| == 17;
  }

  /**
    Decoding what was encoded rebuilds the payload with the box's origin as
    stored and its size as reported (the magnitudes); the identifier is the
    fresh one.
   */
  lemma DecodeEncode(t: TextData, freshId: Uuid)
    ensures Decode(Encode(t), freshId) ==
      Success(TextData(freshId, t.timestamp, t.text, t.confidence,
                       Rect(t.box.x, t.box.y, Abs(t.box.width), Abs(t.box.height))))
  {
  }

  /** The round trip preserves every payload field exactly when the box size is non-negative. */
  lemma RoundTrip(t: TextData, freshId: Uuid)
    ensures Decode(Encode(t), freshId).Success?
    ensures var d := Decode(Encode(t), freshId).value;
      d.timestamp == t.timestamp && d.text == t.text && d.confidence == t.confidence
    ensures Decode(Encode(t), freshId).value.box == t.box <==>
      t.box.width >= 0.0 && t.box.height >= 0.0
    ensures t.box.width >= 0.0 && t.box.height >= 0.0 ==>
      Decode(Encode(t), freshId) == Success(t.(id := freshId))
  {
    DecodeEncode(t, freshId);
  }

  /**
    Encoding what was decoded gives back the seven coding-key entries of the
    container, with any negative size replaced by its magnitude.
   */
  lemma EncodeDecode(c: Container, freshId: Uuid)
    requires Decode(c, freshId).Success?
    ensures var e := Encode(Decode(c, freshId).value);
      forall k: CodingKey :: e[k.RawValue()] ==
        if k == BoundingBoxWidth || k == BoundingBoxHeight then Number(Abs(c[k.RawValue()].n))
        else c[k.RawValue()]
  {
    forall k: CodingKey ensures Readable(c, k) {
      AllKeysComplete(k);
    }
  }
}

/** JSON values as Python's `json` module produces them, and the few dictionary
    and list operations the analysis codecs perform on them. */
module JsonValue {
  import opened Wrappers

  /** A decoded JSON value. Numbers that are not integers keep their literal
      text: nothing in the model computes with them. */
  datatype Json =
    | JNull
    | JBool(b: bool)
    | JInt(i: int)
    | JNum(literal: string)
    | JStr(s: string)
    | JArr(items: seq<Json>)
    | JObj(fields: map<string, Json>)

  /** Why a decoder gave up: a value without `.get` (Python's AttributeError),
      or a list-valued key holding something that cannot be iterated
      (Python's TypeError). */
  datatype DecodeError = NotAnObject | NotIterable

  /** Python's `d.get(key, None)`. */
  function Get(obj: map<string, Json>, key: string): Json {
    if key in obj then obj[key] else JNull
  }

  /** Python's `[dec(x) for x in items]`: the first element that fails stops
      the comprehension with its error. */
  function DecodeAll<T>(items: seq<Json>, dec: Json -> Result<T, DecodeError>): (r: Result<seq<T>, DecodeError>)
    ensures r.Success? <==> forall i :: 0 <= i < |items| ==> dec(items[i]).Success?
    ensures r.Success? ==> |r.value| == |items|
    ensures r.Success? ==> forall i :: 0 <= i < |items| ==> dec(items[i]) == Success(r.value[i])
    ensures r.Failure? ==> exists i :: 0 <= i < |items| && dec(items[i]) == Failure(r.error)
  {
    if |items| == 0 then Success([])
    else
      var head := dec(items[0]);
      if head.Failure? then Failure(head.error)
      else
        var tail := DecodeAll(items[1..], dec);
        if tail.Failure? then
          var i :| 0 <= i < |items| - 1 && dec(items[1..][i]) == Failure(tail.error);
          assert dec(items[i + 1]) == Failure(tail.error);
          Failure(tail.error)
        else
          assert forall i :: 1 <= i < |items| ==> items[i] == items[1..][i - 1];
          Success([head.value] + tail.value)
  }

  /** `[dec(x) for x in obj.get(key, [])]` for every entity decoder of the
      analysis codecs. A missing key gives no elements; an array is decoded
      element by element; iterating an empty string or an empty object
      yields nothing; a non-empty string or object yields strings, which the
      entity decoders reject for lack of `.get`; null, booleans and numbers
      cannot be iterated. */
  function ListField<T>(obj: map<string, Json>, key: string, dec: Json -> Result<T, DecodeError>): (r: Result<seq<T>, DecodeError>)
    ensures key !in obj ==> r == Success([])
    ensures key in obj && obj[key].JArr? ==> r == DecodeAll(obj[key].items, dec)
    ensures key in obj && (obj[key].JNull? || obj[key].JBool? || obj[key].JInt? || obj[key].JNum?) ==> r == Failure(NotIterable)
  {
    if key !in obj then Success([])
    else
      match obj[key]
      case JArr(items) => DecodeAll(items, dec)
      case JStr(s) => if |s| == 0 then Success([]) else Failure(NotAnObject)
      case JObj(m) => if |m| == 0 then Success([]) else Failure(NotAnObject)
      case _ => Failure(NotIterable)
  }

  /** Python's `[enc(x) for x in xs]`. */
  function EncodeAll<T>(xs: seq<T>, enc: T -> Json): seq<Json> {
    seq(|xs|, i requires 0 <= i < |xs| => enc(xs[i]))
  }

  /** Applies `f` to every element. */
  function MapSeq<T>(xs: seq<T>, f: T -> T): seq<T> {
    seq(|xs|, i requires 0 <= i < |xs| => f(xs[i]))
  }

  /** Encoding a list and decoding it again gives each element back as the
      element codec round-trips it. */
  lemma DecodeEncodeAll<T>(xs: seq<T>, enc: T -> Json, dec: Json -> Result<T, DecodeError>, norm: T -> T)
    requires forall x :: x in xs ==> dec(enc(x)) == Success(norm(x))
    ensures DecodeAll(EncodeAll(xs, enc), dec) == Success(MapSeq(xs, norm))
  {
    var items := EncodeAll(xs, enc);
    forall i | 0 <= i < |items|
      ensures dec(items[i]) == Success(norm(xs[i]))
    {
      assert xs[i] in xs;
    }
    var r := DecodeAll(items, dec);
    assert r.value == MapSeq(xs, norm);
  }

  /** The lossless case of `DecodeEncodeAll`. */
  lemma DecodeEncodeAllExact<T>(xs: seq<T>, enc: T -> Json, dec: Json -> Result<T, DecodeError>)
    requires forall x :: x in xs ==> dec(enc(x)) == Success(x)
    ensures DecodeAll(EncodeAll(xs, enc), dec) == Success(xs)
  {
    DecodeEncodeAll(xs, enc, dec, x => x);
    assert MapSeq(xs, x => x) == xs;
  }

  /** An encoded list stored under a key decodes back through `ListField`. */
  lemma ListFieldOfEncoded<T>(obj: map<string, Json>, key: string, xs: seq<T>, enc: T -> Json,
                              dec: Json -> Result<T, DecodeError>, norm: T -> T)
    requires key in obj && obj[key] == JArr(EncodeAll(xs, enc))
    requires forall x :: x in xs ==> dec(enc(x)) == Success(norm(x))
    ensures ListField(obj, key, dec) == Success(MapSeq(xs, norm))
  {
    DecodeEncodeAll(xs, enc, dec, norm);
  }

  /** The lossless case of `ListFieldOfEncoded`. */
  lemma ListFieldOfEncodedExact<T>(obj: map<string, Json>, key: string, xs: seq<T>, enc: T -> Json,
                                   dec: Json -> Result<T, DecodeError>)
    requires key in obj && obj[key] == JArr(EncodeAll(xs, enc))
    requires forall x :: x in xs ==> dec(enc(x)) == Success(x)
    ensures ListField(obj, key, dec) == Success(xs)
  {
    DecodeEncodeAllExact(xs, enc, dec);
  }

  /** A list-valued key holding an empty string or an empty object decodes
      to no elements, as Python iterates either without a step. */
  lemma EmptyIterablesGiveNoElements<T>(obj: map<string, Json>, key: string, dec: Json -> Result<T, DecodeError>)
    requires key in obj && (obj[key] == JStr("") || obj[key] == JObj(map[]) || obj[key] == JArr([]))
    ensures ListField(obj, key, dec) == Success([])
  {
  }
}

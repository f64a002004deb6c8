/** The body-trimming middleware: a shallow copy of the request body in which
    every top-level string value, except under the listed keys, is trimmed. */
module TrimMiddleware {
  import opened Text

  /** A JSON value as a parsed request body holds it. */
  datatype Json =
    | JString(text: string)
    | JNumber(n: int)
    | JBool(b: bool)
    | JNull
    | JArray(items: seq<Json>)
    | JObject(fields: map<string, Json>)

  /** A request body: a JSON object's top-level fields. */
  type Body = map<string, Json>

  /** The value stored under one key after the middleware runs. */
  function TrimField(except: seq<string>, k: string, v: Json): Json {
    if v.JString? && k !in except then JString(Trim(v.text)) else v
  }

  /** `trim(except)` applied to a body. */
  function TrimBody(except: seq<string>, body: Body): (r: Body)
    ensures r.Keys == body.Keys
    ensures forall k :: k in body && (k in except || !body[k].JString?) ==> r[k] == body[k]
    ensures forall k :: k in body && k !in except && body[k].JString? ==>
      r[k].JString? && IsTrimmed(r[k].text) && r[k].text == Trim(body[k].text)
  {
    map k | k in body :: TrimField(except, k, body[k])
  }

  /** Running the middleware twice is the same as running it once. */
  lemma TrimBodyIdempotent(except: seq<string>, body: Body)
    ensures TrimBody(except, TrimBody(except, body)) == TrimBody(except, body)
  {
    var once := TrimBody(except, body);
    forall k | k in once
      ensures TrimBody(except, once)[k] == once[k]
    {
      if once[k].JString? && k !in except {
        TrimIdempotent(body[k].text);
      }
    }
  }

  lemma TrimPaddedX()
    ensures Trim(" x ") == "x"
  {
    assert IsWhitespace(' ') && !IsWhitespace('x');
    assert " x "[1..] == "x ";
    assert TrimStart("x ") == "x ";
    assert TrimStart(" x ") == "x ";
    assert "x "[..1] == "x";
    assert TrimEnd("x") == "x";
    assert TrimEnd("x ") == "x";
  }

  /** Trimming is shallow: a nested object keeps its padded strings. */
  lemma TrimIsShallow()
    ensures TrimBody([], map["a" := JObject(map["b" := JString(" x ")])])
         == map["a" := JObject(map["b" := JString(" x ")])]
  {
  }

  /** A padded top-level string is trimmed unless its key is exempt. */
  lemma TrimHonoursExceptions()
    ensures TrimBody([], map["a" := JString(" x ")])["a"] == JString("x")
    ensures TrimBody(["a"], map["a" := JString(" x ")])["a"] == JString(" x ")
  {
    TrimPaddedX();
  }
}

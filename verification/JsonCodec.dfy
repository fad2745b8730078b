/** Writer and reader together, object to object. */
module JsonCodec {
  import opened Bytes
  import opened JsonValue
  import opened JsonLexer
  import opened JsonGrammar
  import opened JsonTokens
  import opened JsonRoundTrip
  import opened JsonRefused
  import opened JsonFaithful
  import opened JsonReader
  import opened JsonWriter
  import opened JsonStyledWriter

  /** What `FastWriter` writes, `OurReader` accepts exactly when it is not too deep, clashes in no name and
      is a container if one is asked for; and the root is the value that was written, array holes read as
      null, exactly when moreover its strings are faithful. */
  method ThroughFastWriter(f: Features, v: Value, yaml: bool, omitLineFeed: bool) returns (flow: Flow, root: Value)
    requires Utf8Value(v) && Valid(v)
    ensures flow == Returned(true) <==> Accepted(f, v)
    ensures flow == Returned(true) ==> root == JsonParseBack.Reread(v)
    ensures flow == Returned(true) && root == Retag(Filled(v)) <==> Accepted(f, v) && FaithfulValue(Filled(v))
    ensures !Clashes(f, v) ==> (flow == Exception <==> Deep(f, 1, v))
  {
    hide Parse, Accepted, Clashes, Deep;
    Utf8HasNoReals(v);
    var writer := new FastWriter(yaml, omitLineFeed);
    var text := writer.Write(v);
    var reader := new OurReader(f);
    RoundTripIff(f, text, v, Null);
    flow := reader.Parse(text, Null);
    root := if flow.Returned? then reader.nodes[0] else Null;
  }

  /** The same for the styled writer, whatever its indentation and layout. */
  method ThroughStyledWriter(f: Features, v: Value, indentation: Bytes, allComments: bool, yaml: bool)
    returns (flow: Flow, root: Value)
    requires Utf8Value(v) && Valid(v) && AllSpaces(indentation)
    ensures flow == Returned(true) <==> Accepted(f, v)
    ensures flow == Returned(true) ==> root == JsonParseBack.Reread(v)
    ensures flow == Returned(true) && root == Retag(Filled(v)) <==> Accepted(f, v) && FaithfulValue(Filled(v))
    ensures !Clashes(f, v) ==> (flow == Exception <==> Deep(f, 1, v))
  {
    hide Parse, Accepted, Clashes, Deep;
    Utf8HasNoReals(v);
    var writer := new BuiltStyledStreamWriter(indentation, allComments, yaml);
    var text := writer.Write(v);
    var reader := new OurReader(f);
    RoundTripIff(f, text, v, Null);
    flow := reader.Parse(text, Null);
    root := if flow.Returned? then reader.nodes[0] else Null;
  }

  lemma {:induction false} Utf8HasNoReals(v: Value)
    requires Utf8Value(v)
    ensures RealFree(v)
    decreases v
  {
    match v {
      case Array(e) => AllUtf8NoReals(e);
      case Object(e) => AllUtf8NoReals(e);
      case _ =>
    }
  }

  lemma {:induction false} AllUtf8NoReals(e: Entries)
    requires AllUtf8(e)
    ensures AllRealFree(e)
    decreases e
  {
    if e.Entry? {
      Utf8HasNoReals(e.value);
      AllUtf8NoReals(e.rest);
    }
  }
}

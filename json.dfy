/** JSON trees as the patch engine sees them, and the JSON library the tool
    calls into, which the model does not look into. */
module Json {
  import opened Wrappers
  import opened Bytes

  /** A JSON value. Numbers keep their lexeme: the tool never computes with
      them. An object is its members in document order. */
  datatype Json =
    | Null
    | Bool(b: bool)
    | Num(lexeme: string)
    | Str(s: string)
    | Arr(elems: seq<Json>)
    | Obj(members: seq<(string, Json)>)

  /** The kinds of token the streaming reader reports; only the four
      structural ones matter to the depth count. */
  datatype TokenKind = StartObject | EndObject | StartArray | EndArray | OtherToken

  /** A token together with the reader's count of bytes consumed once the
      token has been read. */
  datatype Token = Token(kind: TokenKind, end: nat)

  /** The JSON library:
      - tokenize: the tokens the streaming reader yields over a byte span
        before it reports the end of input or throws;
      - parse: the document parser on UTF-8 bytes, None where it throws;
        JSON null parses to Some(Null);
      - serialize: compact serialisation of a tree to UTF-8 bytes. */
  datatype JsonLib = JsonLib(tokenize: seq<byte> -> seq<Token>,
                             parse: seq<byte> -> Option<Json>,
                             serialize: Json -> seq<byte>)

  /** ContainsKey on an object. */
  predicate HasKey(ms: seq<(string, Json)>, key: string)
  {
    exists i :: 0 <= i < |ms| && ms[i].0 == key
  }

  /** Some object in j, at any depth, has a member named key. */
  predicate HasProp(j: Json, key: string)
    decreases j
  {
    match j
    case Obj(ms) => HasKey(ms, key) || exists i :: 0 <= i < |ms| && HasProp(ms[i].1, key)
    case Arr(es) => exists i :: 0 <= i < |es| && HasProp(es[i], key)
    case _ => false
  }

  function Sum(ns: seq<nat>): nat
  {
    if ns == [] then 0 else ns[0] + Sum(ns[1..])
  }

  /** The number of objects in j, at any depth, with a member named key. */
  function KeyedObjects(j: Json, key: string): nat
    decreases j
  {
    match j
    case Obj(ms) =>
      (if HasKey(ms, key) then 1 else 0)
      + Sum(seq(|ms|, i requires 0 <= i < |ms| => KeyedObjects(ms[i].1, key)))
    case Arr(es) => Sum(seq(|es|, i requires 0 <= i < |es| => KeyedObjects(es[i], key)))
    case _ => 0
  }

  /** A tree has a keyed object exactly when the count of keyed objects is
      positive. */
  lemma {:induction false} KeyedObjectsPositive(j: Json, key: string)
    ensures HasProp(j, key) <==> KeyedObjects(j, key) > 0
    decreases j
  {
    match j
    case Obj(ms) =>
      var ks := seq(|ms|, i requires 0 <= i < |ms| => KeyedObjects(ms[i].1, key));
      forall i | 0 <= i < |ms| ensures HasProp(ms[i].1, key) <==> ks[i] > 0 {
        KeyedObjectsPositive(ms[i].1, key);
      }
      SumPositive(ks);
    case Arr(es) =>
      var ks := seq(|es|, i requires 0 <= i < |es| => KeyedObjects(es[i], key));
      forall i | 0 <= i < |es| ensures HasProp(es[i], key) <==> ks[i] > 0 {
        KeyedObjectsPositive(es[i], key);
      }
      SumPositive(ks);
    case _ =>
  }

  lemma {:induction false} SumPositive(ns: seq<nat>)
    ensures Sum(ns) > 0 <==> exists i :: 0 <= i < |ns| && ns[i] > 0
  {
    if ns != [] {
      SumPositive(ns[1..]);
      if Sum(ns[1..]) > 0 {
        var i :| 0 <= i < |ns[1..]| && ns[1..][i] > 0;
        assert ns[i + 1] > 0;
      }
      if exists i :: 0 <= i < |ns| && ns[i] > 0 {
        var i :| 0 <= i < |ns| && ns[i] > 0;
        if i > 0 { assert ns[1..][i - 1] > 0; }
      }
    }
  }
}

/**
 The two binary encoders meet the assumption the log layer makes of its encoder, so its results
 hold for documents of either format.
 */
module Encoders {
  import opened Bytes
  import opened Documents
  import opened U29
  import opened Operations
  import opened DatabaseState
  import opened Calls
  import opened LiveReplay
  import opened Runs
  import Bson
  import Amf3
  import Amf3Weights

  const BSON: Encoder := Encoder(document => Bson.EncodeBson(document), bytes => Bson.DecodeBson(bytes))
  const AMF3: Encoder := Encoder(document => Amf3.EncodeAmf3(document), bytes => Amf3.DecodeAmf3(bytes))

  /** A document whose BSON form fits the length prefix of a put record is stored exactly when no key holds a zero byte. */
  lemma BsonStores(document: Doc)
    requires Bson.DistinctKeys(document)
    ensures Stores(BSON, document) <==> Encodes(BSON, document) && Bson.ZeroFree(document)
  {
    hide Bson.EncodeBson, Bson.DecodeBson, Bson.ZeroFree, Bson.DistinctKeys;
    if Bson.EncodeBson(document).Ok? {
      Bson.BsonRoundTrip(document);
    }
  }

  /** The same for AMF3: exactly when no key is empty, at any depth. */
  lemma Amf3Stores(document: Doc)
    requires Amf3.SizedFields(document)
    ensures Stores(AMF3, document) <==> Encodes(AMF3, document) && Amf3.NamedFields(document)
  {
    hide Amf3.ObjectBytes, Amf3.DecodeAmf3, Amf3.NamedFields, Amf3.SizedFields;
    Amf3Weights.Amf3Exact(document);
  }

  /** What the results about runs ask of a call, in terms of BSON documents alone. */
  lemma BsonReasonable(st: State, call: Call)
    requires forall w :: w in WritesOf(st, call) ==> Bson.DistinctKeys(w.document)
    ensures Reasonable(BSON, st, call)
       <==> Admissible(st, call) && !StopsHalfway(BSON, st, call) && !Overlong(st, call)
            && forall w :: w in WritesOf(st, call) && Encodes(BSON, w.document) ==> Bson.ZeroFree(w.document)
  {
    hide Stores, Bson.EncodeBson, Bson.DecodeBson, Bson.ZeroFree, Bson.DistinctKeys, Admissible, WritesOf, StopsHalfway, Overlong;
    forall w | w in WritesOf(st, call)
      ensures Stores(BSON, w.document) <==> Encodes(BSON, w.document) && Bson.ZeroFree(w.document)
    {
      BsonStores(w.document);
    }
  }

  lemma Amf3Reasonable(st: State, call: Call)
    requires forall w :: w in WritesOf(st, call) ==> Amf3.SizedFields(w.document)
    ensures Reasonable(AMF3, st, call)
       <==> Admissible(st, call) && !StopsHalfway(AMF3, st, call) && !Overlong(st, call)
            && forall w :: w in WritesOf(st, call) && Encodes(AMF3, w.document) ==> Amf3.NamedFields(w.document)
  {
    hide Stores, Amf3.ObjectBytes, Amf3.DecodeAmf3, Amf3.NamedFields, Amf3.SizedFields, Admissible, WritesOf, StopsHalfway, Overlong;
    forall w | w in WritesOf(st, call)
      ensures Stores(AMF3, w.document) <==> Encodes(AMF3, w.document) && Amf3.NamedFields(w.document)
    {
      Amf3Stores(w.document);
    }
  }
}

/**
 * Contact identifiers: a conversation is a peer user (kind `u`) or a group
 * (kind `g`) with a numeric id, and the bridge keys everything by one string
 * per conversation. The codec that turns one into the other lives outside
 * this model (src/global.ts is not part of it), so it is a parameter: any pair
 * of functions that satisfies the round-trip law below.
 */
module ContactIds {
  import opened Wrappers

  datatype Kind = User | Group

  datatype Contact = Contact(kind: Kind, uin: nat)

  /** `genContactId` and `parseContactId`; `decode` yields `None` where parsing fails. */
  datatype Codec = Codec(encode: Contact -> string, decode: string -> Option<Contact>)

  /** The law the codec is assumed to keep: decoding an encoded contact gives it back. */
  ghost predicate Lawful(codec: Codec)
  {
    forall c :: codec.decode(codec.encode(c)) == Some(c)
  }

  /** A lawful codec never gives two contacts the same identifier. */
  lemma EncodeInjective(codec: Codec, a: Contact, b: Contact)
    requires Lawful(codec)
    ensures codec.encode(a) == codec.encode(b) <==> a == b
  {
    if codec.encode(a) == codec.encode(b) {
      assert codec.decode(codec.encode(a)) == Some(a);
      assert codec.decode(codec.encode(b)) == Some(b);
    }
  }
}

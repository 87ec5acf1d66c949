/** Percent-encoding of a URI component, as performed by `encodeURIComponent`
    and `decodeURIComponent` (section 19.2.6 of ECMA-262).

    The model does not re-implement the two functions: it takes them as a
    pair of function values and states, as a hypothesis on the lemmas that
    need it, the one law the handshake relies on. */
module Uri {
  import opened Wrappers

  /** `decode` is partial: `decodeURIComponent` throws a `URIError` on a
      malformed escape, modelled as `None`. */
  datatype PercentCodec = PercentCodec(encode: string -> string, decode: string -> Option<string>)

  /** Decoding undoes encoding, and the empty string decodes to itself. */
  ghost predicate Inverse(codec: PercentCodec) {
    && (forall s :: codec.decode(codec.encode(s)) == Some(s))
    && codec.decode([]) == Some([])
  }

  /** Under `Inverse`, only the empty string encodes to the empty string. */
  lemma EncodeNonEmpty(codec: PercentCodec, s: string)
    requires Inverse(codec)
    requires s != []
    ensures codec.encode(s) != []
  {
    assert codec.decode(codec.encode(s)) == Some(s);
  }
}

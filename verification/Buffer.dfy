/**
  The bounds-checked stores into an output buffer (amqp_encode_N and amqp_encode_bytes).
  `limit` is the end of the region the caller may write, `o` the moving offset.
 */
module Buffer {
  import opened Wire

  /** `after` is `before` with `data` stored at `o`. */
  ghost predicate Wrote(before: Bytes, after: Bytes, o: nat, data: Bytes) {
    && o + |data| <= |before|
    && after == before[..o] + data + before[o + |data|..]
  }

  lemma WroteNext(a: Bytes, b: Bytes, c: Bytes, o: nat, x: Bytes, y: Bytes)
    requires Wrote(a, b, o, x) && Wrote(b, c, o + |x|, y)
    ensures Wrote(a, c, o, x + y)
  {
    assert b[..o + |x|] == a[..o] + x;
    assert b[o + |x| + |y|..] == a[o + |x + y|..];
  }

  /** A length prefix may be filled in after the octets it counts. */
  lemma WroteBefore(a: Bytes, b: Bytes, c: Bytes, o: nat, x: Bytes, y: Bytes)
    requires Wrote(a, b, o + |x|, y) && Wrote(b, c, o, x)
    ensures Wrote(a, c, o, x + y)
  {
    assert b[..o] == a[..o];
    assert b[o + |x|..] == y + a[o + |x + y|..];
  }

  /** Nothing outside `o..limit` changed. */
  ghost predicate Within(before: Bytes, after: Bytes, o: nat, limit: nat) {
    && |after| == |before|
    && forall i | 0 <= i < |before| && !(o <= i < limit) :: after[i] == before[i]
  }

  lemma WroteWithin(a: Bytes, b: Bytes, o: nat, data: Bytes, lo: nat, limit: nat)
    requires Wrote(a, b, o, data) && lo <= o && o + |data| <= limit <= |a|
    ensures Within(a, b, lo, limit)
  {
  }

  method Store(buf: array<Byte>, limit: nat, o: nat, data: Bytes) returns (ok: bool, o': nat)
    requires limit <= buf.Length
    modifies buf
    ensures ok <==> o + |data| <= limit
    ensures o' == o + |data|
    ensures ok ==> Wrote(old(buf[..]), buf[..], o, data)
    ensures !ok ==> buf[..] == old(buf[..])
  {
    o' := o + |data|;
    ok := o' <= limit;
    if ok {
      forall i | 0 <= i < |data| {
        buf[o + i] := data[i];
      }
    }
  }
}

/** rfc1035BuildAQuery of lib/rfc1035.c: a whole query message written into a buffer. */
module DnsBuild {
  import opened Buffers
  import opened DnsName
  import opened DnsCodec
  import opened DnsQuery

  /** memcpy of a short in network order. */
  method PutShort(buf: array<byte>, pos: nat, x: uint16) returns (off: nat)
    requires pos + 2 <= buf.Length
    modifies buf
    ensures off == 2 && Wrote(old(buf[..]), buf[..], pos, Put16(x))
  {
    buf[pos], buf[pos + 1] := x / 256, x % 256;
    off := 2;
    assert buf[..][pos..pos + 2] == Put16(x);
  }

  method PutShorts(buf: array<byte>, pos: nat, x: uint16, y: uint16) returns (off: nat)
    requires pos + 4 <= buf.Length
    modifies buf
    ensures off == 4 && Wrote(old(buf[..]), buf[..], pos, Put16(x) + Put16(y))
  {
    hide Wrote;
    ghost var a := buf[..];
    var n := PutShort(buf, pos, x);
    ghost var b := buf[..];
    var m := PutShort(buf, pos + n, y);
    WroteBoth(a, b, buf[..], pos, Put16(x), Put16(y));
    off := n + m;
  }

  method HeaderPack(buf: array<byte>, pos: nat, h: Header) returns (off: nat)
    requires pos + 12 <= buf.Length
    modifies buf
    ensures off == 12 && Wrote(old(buf[..]), buf[..], pos, PackHeader(h))
  {
    hide Wrote, Put16;
    FlagsFit(h);
    hide Flags;
    PutSize(h);
    ghost var a := buf[..];
    ghost var x, y, z := Put16(h.id) + Put16(Flags(h)), Put16(h.qdcount) + Put16(h.ancount), Put16(h.nscount) + Put16(h.arcount);
    var n := PutShorts(buf, pos, h.id, Flags(h));
    ghost var b := buf[..];
    var m := PutShorts(buf, pos + 4, h.qdcount, h.ancount);
    WroteBoth(a, b, buf[..], pos, x, y);
    ghost var c := buf[..];
    var k := PutShorts(buf, pos + 8, h.nscount, h.arcount);
    WroteBoth(a, c, buf[..], pos, x + y, z);
    assert x + y + z == PackHeader(h);
    off := n + m + k;
  }

  lemma PutSize(h: Header)
    ensures forall x: uint16 :: |Put16(x)| == 2
  {}

  /** rfc1035BuildAQuery; the buffer has room for the whole message. */
  method BuildAQuery(hostname: Text, buf: array<byte>, qid: uint16) returns (offset: nat, query: Query)
    requires |AQuery(hostname, qid)| <= buf.Length
    modifies buf
    ensures offset == |AQuery(hostname, qid)| && buf[..offset] == AQuery(hostname, qid)
    ensures buf[offset..] == old(buf[offset..])
    ensures query == Recorded(hostname)
  {
    hide PackHeader, PackName, Put16, Wrote;
    ghost var a := buf[..];
    var h := Header(qid, 0, 0, 0, 0, 1, 0, 0, 1, 0, 0, 0);
    PutSize(h);
    ghost var x, y, z := PackHeader(h), PackName(hostname), Put16(TYPE_A) + Put16(CLASS_IN);
    offset := HeaderPack(buf, 0, h);
    ghost var b := buf[..];
    var n := NamePack(buf, offset, hostname);
    WroteBoth(a, b, buf[..], 0, x, y);
    offset := offset + n;
    ghost var c := buf[..];
    var m := PutShorts(buf, offset, TYPE_A, CLASS_IN);
    WroteBoth(a, c, buf[..], 0, x + y, z);
    offset := offset + m;
    WroteFirst(a, buf[..], x + y + z);
    query := Query(if |hostname| < MAXHOSTNAMESZ then hostname else hostname[..MAXHOSTNAMESZ - 1], TYPE_A, CLASS_IN);
  }

  lemma WroteFirst(a: Text, b: Text, e: Text)
    requires Wrote(a, b, 0, e)
    ensures |e| <= |b| && |a| == |b| && b[..|e|] == e && b[|e|..] == a[|e|..]
  {
    assert b[0..|e|] == b[..|e|];
  }
}

/** parseSNI: the walk from a TLS record to the host name of its server_name extension
    (RFC 5246 section 7.4.1.2, RFC 6066 section 3). */
module Sni {
  import opened Bytes

  // ---- what the walk computes --------------------------------------------

  /** A field preceded by its length in one byte. */
  function Prefixed8(x: Bytes): Bytes
    requires |x| < 256
  {
    [|x|] + x
  }

  function TakeField8(b: Bytes): Field {
    if |b| < 1 || |b| < 1 + b[0] as int then Missing else Field(b[1..1 + b[0] as int], b[1 + b[0] as int..])
  }

  /** The host name an extension body starts with, if its type and its lengths say so. The
      name may use all that is left of the extension block, not just its own extension. */
  function NameAt(kind: nat, size: nat, b: Bytes): Bytes
    requires size <= |b|
  {
    if kind == 0 && size >= 5 && Get16(b[..2]) == size - 2 && b[2] == 0
       && 0 < Get16(b[3..5]) <= 255 && 5 + Get16(b[3..5]) <= |b|
    then b[5..5 + Get16(b[3..5])]
    else []
  }

  /** The loop over the extensions. */
  function Scan(b: Bytes): Bytes {
    if |b| < 4 then []
    else
      var kind, size, rest := Get16(b[..2]), Get16(b[2..4]), b[4..];
      if size > |rest| then []
      else if NameAt(kind, size, rest) != [] then NameAt(kind, size, rest)
      else Scan(rest[size..])
  }

  /** The fields between the random and the extensions. */
  function AfterRandom(b: Bytes): Bytes {
    match TakeField8(b)
    case Missing => []
    case Field(sessionId, rest) => AfterSession(rest)
  }

  function AfterSession(b: Bytes): Bytes {
    match TakeField(b)
    case Missing => []
    case Field(ciphers, rest) => AfterCiphers(rest)
  }

  function AfterCiphers(b: Bytes): Bytes {
    match TakeField8(b)
    case Missing => []
    case Field(compression, rest) => AfterCompression(rest)
  }

  function AfterCompression(b: Bytes): Bytes {
    if |b| < 2 then [] else Scan(Clamp(b[2..], Get16(b[..2])))
  }

  /** The extension block: its declared length, or what is there of it. */
  function Clamp(b: Bytes, n: nat): Bytes {
    if n <= |b| then b[..n] else b
  }

  function Parse(record: Bytes): Bytes {
    if |record| < 43 || record[5] != 0x01 then [] else AfterRandom(record[43..])
  }

  // ---- the code ----------------------------------------------------------

  lemma SliceOfSlice(b: Bytes, p: nat, end: nat, i: nat, j: nat)
    requires p <= end <= |b| && i <= j <= end - p
    ensures b[p..end][i..j] == b[p + i..p + j]
  {
    assert |b[p..end][i..j]| == j - i;
    assert forall k :: 0 <= k < j - i ==> b[p..end][i..j][k] == b[p + i + k];
  }

  lemma TakeField8At(b: Bytes, o: nat)
    requires o <= |b|
    ensures TakeField8(b[o..]) ==
            if |b| < o + 1 || |b| < o + 1 + b[o] as int then Missing
            else Field(b[o + 1..o + 1 + b[o] as int], b[o + 1 + b[o] as int..])
  {
    if o < |b| {
      var rest, n := b[o..], b[o] as int;
      assert rest[0] == b[o];
      if |b| >= o + 1 + n {
        assert rest[1..1 + n] == b[o + 1..o + 1 + n] && rest[1 + n..] == b[o + 1 + n..];
      }
    }
  }

  function Word(record: Bytes, p: nat): (n: nat)
    requires p + 2 <= |record|
    ensures n == Get16(record[p..p + 2])
  {
    record[p] as int * 256 + record[p + 1] as int
  }

  lemma SessionAt(r: Bytes, p: nat)
    requires p <= |r|
    ensures AfterRandom(r[p..]) == if p + 1 > |r| || p + 1 + r[p] as int > |r| then [] else AfterSession(r[p + 1 + r[p] as int..])
  {
    hide AfterSession, TakeField8;
    TakeField8At(r, p);
  }

  lemma CiphersAt(r: Bytes, p: nat)
    requires p <= |r|
    ensures AfterSession(r[p..]) == if p + 2 > |r| || p + 2 + Word(r, p) > |r| then [] else AfterCiphers(r[p + 2 + Word(r, p)..])
  {
    hide AfterCiphers, TakeField, Get16, Word;
    TakeAt(r, p);
  }

  lemma CompressionAt(r: Bytes, p: nat)
    requires p <= |r|
    ensures AfterCiphers(r[p..]) == if p + 1 > |r| || p + 1 + r[p] as int > |r| then [] else AfterCompression(r[p + 1 + r[p] as int..])
  {
    hide AfterCompression, TakeField8;
    TakeField8At(r, p);
  }

  lemma BlockAt(r: Bytes, p: nat)
    requires p <= |r|
    ensures AfterCompression(r[p..]) ==
            if p + 2 > |r| then [] else
              Scan(r[p + 2..if p + 2 + Word(r, p) > |r| then |r| else p + 2 + Word(r, p)])
  {
    hide Scan, Word;
    if p + 2 <= |r| {
      var b, n := r[p..], Word(r, p);
      assert b[..2] == r[p..p + 2] && b[2..] == r[p + 2..] == r[p + 2..|r|];
      if p + 2 + n <= |r| { assert r[p + 2..][..n] == r[p + 2..p + 2 + n]; }
    }
  }

  /** parseSNI on any bytes: no index leaves the record, and the result is Parse's. */
  method ParseSNI(record: Bytes) returns (host: Bytes)
    ensures host == Parse(record)
  {
    hide Scan, AfterRandom, AfterSession, AfterCiphers, AfterCompression, Word, Get16;
    if |record| < 5 { return []; }
    var p := 5;
    if p + 4 > |record| || record[p] != 0x01 { return []; }
    p := p + 4;
    if p + 2 > |record| { return []; }
    p := p + 2;
    if p + 32 > |record| { return []; }
    p := p + 32;
    SessionAt(record, p);
    if p + 1 > |record| { return []; }
    var sidLen := record[p] as int;
    p := p + 1 + sidLen;
    if p <= |record| { CiphersAt(record, p); }
    if p + 2 > |record| { return []; }
    var csLen := Word(record, p);
    p := p + 2 + csLen;
    if p <= |record| { CompressionAt(record, p); }
    if p + 1 > |record| { return []; }
    var ccLen := record[p] as int;
    p := p + 1 + ccLen;
    if p <= |record| { BlockAt(record, p); }
    if p + 2 > |record| { return []; }
    var extLen := Word(record, p);
    p := p + 2;
    var extEnd := p + extLen;
    if extEnd > |record| { extEnd := |record|; }
    host := ScanExtensions(record, p, extEnd);
  }

  /** The loop of parseSNI, over the extensions from p to extEnd. */
  method ScanExtensions(record: Bytes, start: nat, extEnd: nat) returns (host: Bytes)
    requires start <= extEnd <= |record|
    ensures host == Scan(record[start..extEnd])
  {
    hide Scan, NameAt;
    var p := start;
    while p + 4 <= extEnd
      invariant start <= p <= extEnd
      invariant Scan(record[start..extEnd]) == Scan(record[p..extEnd])
      decreases extEnd - p
    {
      var etype, elen := Word(record, p), Word(record, p + 2);
      ScanAt(record, p, extEnd);
      p := p + 4;
      if p + elen > extEnd { return []; }
      NameAtOffset(record, etype, elen, p, extEnd);
      if etype == 0x0000 && elen >= 5 {
        var snl := Word(record, p);
        var q := p + 2;
        if snl != elen - 2 || q + 3 > extEnd {
          p := p + elen;
          continue;
        }
        if record[q] == 0x00 {
          var hn := Word(record, q + 1);
          if hn > 0 && hn <= 255 && q + 3 + hn <= extEnd {
            return record[q + 3..q + 3 + hn];
          }
        }
      }
      p := p + elen;
    }
    ScanShort(record[p..extEnd]);
    return [];
  }

  lemma ScanShort(b: Bytes)
    requires |b| < 4
    ensures Scan(b) == []
  {
  }

  lemma ScanAt(record: Bytes, p: nat, end: nat)
    requires p + 4 <= end <= |record|
    ensures
      var kind, size := Word(record, p), Word(record, p + 2);
      Scan(record[p..end]) ==
      if p + 4 + size > end then []
      else if NameAt(kind, size, record[p + 4..end]) != [] then NameAt(kind, size, record[p + 4..end])
      else Scan(record[p + 4 + size..end])
  {
    hide NameAt;
    var b, size := record[p..end], Word(record, p + 2);
    assert b[..2] == record[p..p + 2] && b[2..4] == record[p + 2..p + 4] && b[4..] == record[p + 4..end];
    if p + 4 + size <= end {
      assert record[p + 4..end][size..] == record[p + 4 + size..end];
    }
  }

  lemma NameAtOffset(record: Bytes, kind: nat, size: nat, p: nat, end: nat)
    requires p + size <= end <= |record|
    ensures NameAt(kind, size, record[p..end]) ==
            if kind == 0 && size >= 5 && Word(record, p) == size - 2 && record[p + 2] == 0
               && 0 < Word(record, p + 3) <= 255 && p + 5 + Word(record, p + 3) <= end
            then record[p + 5..p + 5 + Word(record, p + 3)] else []
  {
    hide Get16, Word;
    if size >= 5 {
      var b, n := record[p..end], Word(record, p + 3);
      SliceOfSlice(record, p, end, 0, 2);
      SliceOfSlice(record, p, end, 3, 5);
      assert b[..2] == b[0..2] && b[2] == record[p + 2];
      assert Get16(b[..2]) == Word(record, p) && Get16(b[3..5]) == n;
      if p + 5 + n <= end { SliceOfSlice(record, p, end, 5, 5 + n); }
    }
  }

  // ---- ClientHello -------------------------------------------------------

  datatype Extension = Extension(kind: nat, body: Bytes)

  function EncodeExtension(e: Extension): Bytes {
    Put16(e.kind) + Prefixed(e.body)
  }

  function EncodeExtensions(list: seq<Extension>): Bytes {
    if list == [] then [] else EncodeExtension(list[0]) + EncodeExtensions(list[1..])
  }

  /** RFC 6066 section 3: a list whose first entry is a host_name. */
  function ServerName(host: Bytes, moreNames: Bytes): Extension {
    Extension(0, Put16(3 + |host| + |moreNames|) + [0x00] + Prefixed(host) + moreNames)
  }

  /** A ClientHello inside one handshake record. `declared` is the length written in front of
      the extensions; `after` is whatever follows the server_name extension. */
  datatype Hello = Hello(recordHeader: Bytes, handshakeLength: Bytes, version: Bytes, random: Bytes,
                         sessionId: Bytes, ciphers: Bytes, compression: Bytes,
                         declared: nat, before: seq<Extension>, host: Bytes, moreNames: Bytes, after: Bytes)

  ghost predicate ShortExtensions(list: seq<Extension>) {
    forall i :: 0 <= i < |list| ==> 0 < list[i].kind < U16 && |list[i].body| < U16
  }

  function UpToName(h: Hello): Bytes {
    EncodeExtensions(h.before) + EncodeExtension(ServerName(h.host, h.moreNames))
  }

  /** Field sizes as the RFCs have them; the declared length covers at least the extensions up
      to and including server_name. It is exact in a complete record, and may exceed what is
      there in a record cut short later on. */
  ghost predicate WellFormed(h: Hello) {
    && |h.recordHeader| == 5 && |h.handshakeLength| == 3 && |h.version| == 2 && |h.random| == 32
    && |h.sessionId| < 256 && |h.ciphers| < U16 && |h.compression| < 256
    && ShortExtensions(h.before) && 1 <= |h.host| <= 255 && 5 + |h.host| + |h.moreNames| < U16
    && |UpToName(h)| <= h.declared < U16
  }

  function EncodeHello(h: Hello): Bytes
    requires |h.sessionId| < 256 && |h.compression| < 256
  {
    h.recordHeader + [0x01] + h.handshakeLength + h.version + h.random + Fields(h)
  }

  function Fields(h: Hello): Bytes
    requires |h.sessionId| < 256 && |h.compression| < 256
  {
    Prefixed8(h.sessionId) + Prefixed(h.ciphers) + Prefixed8(h.compression) + Block(h)
  }

  function Block(h: Hello): Bytes {
    Put16(h.declared) + UpToName(h) + h.after
  }

  lemma TakePrefixed8(x: Bytes, rest: Bytes)
    requires |x| < 256
    ensures TakeField8(Prefixed8(x) + rest) == Field(x, rest)
  {
    var b := Prefixed8(x) + rest;
    assert b[1..1 + |x|] == x && b[1 + |x|..] == rest;
  }

  lemma ScanOther(e: Extension, rest: Bytes)
    requires 0 < e.kind < U16 && |e.body| < U16
    ensures Scan(EncodeExtension(e) + rest) == Scan(rest)
  {
    var b := EncodeExtension(e) + rest;
    Get16Put16(e.kind);
    Get16Put16(|e.body|);
    assert b[..2] == Put16(e.kind) && b[2..4] == Put16(|e.body|) && b[4..] == e.body + rest;
    assert (e.body + rest)[|e.body|..] == rest;
  }

  lemma {:induction false} ScanSkips(list: seq<Extension>, rest: Bytes)
    requires ShortExtensions(list)
    ensures Scan(EncodeExtensions(list) + rest) == Scan(rest)
  {
    hide Scan, EncodeExtension;
    if list == [] {
      assert EncodeExtensions(list) + rest == rest;
    } else {
      assert EncodeExtensions(list) + rest == EncodeExtension(list[0]) + (EncodeExtensions(list[1..]) + rest);
      ScanOther(list[0], EncodeExtensions(list[1..]) + rest);
      ScanSkips(list[1..], rest);
    }
  }

  lemma ExtensionRead(e: Extension, after: Bytes)
    requires e.kind < U16 && |e.body| < U16
    ensures
      var b := EncodeExtension(e) + after;
      && |b| >= 4 && Get16(b[..2]) == e.kind && Get16(b[2..4]) == |e.body| <= |b[4..]|
      && b[4..][..|e.body|] == e.body && b[4..][|e.body|..] == after
  {
    var b := EncodeExtension(e) + after;
    Get16Put16(e.kind);
    Get16Put16(|e.body|);
    assert b[..2] == Put16(e.kind) && b[2..4] == Put16(|e.body|) && b[4..] == e.body + after;
  }

  lemma NameExtension(host: Bytes, moreNames: Bytes)
    ensures ServerName(host, moreNames).kind == 0 && |ServerName(host, moreNames).body| == 5 + |host| + |moreNames|
  {
  }

  lemma ServerNameRead(host: Bytes, moreNames: Bytes, rest: Bytes)
    requires 1 <= |host| <= 255 && 5 + |host| + |moreNames| < U16
    ensures var e := ServerName(host, moreNames); e.kind == 0 && NameAt(0, |e.body|, e.body + rest) == host
  {
    hide Put16;
    var body := ServerName(host, moreNames).body;
    var b := body + rest;
    Get16Put16(3 + |host| + |moreNames|);
    Get16Put16(|host|);
    var head := Put16(3 + |host| + |moreNames|) + [0x00] + Put16(|host|);
    assert b == head + (host + (moreNames + rest));
    assert b[..2] == head[..2] && b[2] == head[2] && b[3..5] == head[3..5] && b[5..] == host + (moreNames + rest);
    assert b[5..5 + |host|] == b[5..][..|host|] == host;
  }

  lemma ScanFinds(host: Bytes, moreNames: Bytes, rest: Bytes)
    requires 1 <= |host| <= 255 && 5 + |host| + |moreNames| < U16
    ensures Scan(EncodeExtension(ServerName(host, moreNames)) + rest) == host
  {
    hide EncodeExtension, NameAt, ServerName, Get16;
    NameExtension(host, moreNames);
    var e := ServerName(host, moreNames);
    ExtensionRead(e, rest);
    ServerNameRead(host, moreNames, rest);
    assert (EncodeExtension(e) + rest)[4..] == e.body + rest;
  }

  lemma ParseFields(h: Hello)
    requires WellFormed(h)
    ensures AfterRandom(Fields(h)) == Scan(Clamp(UpToName(h) + h.after, h.declared))
  {
    hide Scan, UpToName, Clamp, TakeField8, TakeField, Prefixed8, Prefixed;
    var b2 := Prefixed8(h.compression) + Block(h);
    assert Fields(h) == Prefixed8(h.sessionId) + (Prefixed(h.ciphers) + b2);
    TakePrefixed8(h.sessionId, Prefixed(h.ciphers) + b2);
    TakePrefixed(h.ciphers, b2);
    TakePrefixed8(h.compression, Block(h));
    Get16Put16(h.declared);
    assert Block(h)[..2] == Put16(h.declared) && Block(h)[2..] == UpToName(h) + h.after;
  }

  /** parseSNI finds exactly the host of every such ClientHello, whatever surrounds it. */
  lemma FindsHost(h: Hello)
    requires WellFormed(h)
    ensures Parse(EncodeHello(h)) == h.host
  {
    hide Scan, AfterRandom, EncodeExtension, ServerName, Fields;
    var record := EncodeHello(h);
    assert record[5] == 0x01 && record[43..] == Fields(h);
    ParseFields(h);
    var name := EncodeExtension(ServerName(h.host, h.moreNames));
    var n := |UpToName(h)|;
    var rest := Clamp(h.after, h.declared - n);
    assert Clamp(UpToName(h) + h.after, h.declared) == UpToName(h) + rest;
    assert UpToName(h) + rest == EncodeExtensions(h.before) + (name + rest);
    ScanSkips(h.before, name + rest);
    ScanFinds(h.host, h.moreNames, rest);
  }

  /** Byte string s stands in b behind a zero name type and its own 16-bit length. */
  ghost predicate NamedAt(b: Bytes, q: int, s: Bytes) {
    0 <= q && q + 3 + |s| <= |b| && b[q] == 0 && Get16(b[q + 1..q + 3]) == |s| && b[q + 3..q + 3 + |s|] == s
  }

  /** Whatever parseSNI returns from any bytes is either empty or a run of 1 to 255 bytes of
      the extension block, preceded there by a zero name type and its own 16-bit length. */
  lemma {:induction false} ScanIsSound(b: Bytes)
    ensures Scan(b) != [] ==> 1 <= |Scan(b)| <= 255 && exists q :: NamedAt(b, q, Scan(b))
  {
    hide NameAt, NamedAt, Get16;
    if |b| >= 4 {
      var kind, size, rest := Get16(b[..2]), Get16(b[2..4]), b[4..];
      if size <= |rest| {
        if NameAt(kind, size, rest) != [] {
          NameIsNamed(kind, size, rest);
          NamedFurther(b, 4, 2, NameAt(kind, size, rest));
        } else {
          ScanIsSound(rest[size..]);
          if Scan(rest[size..]) != [] {
            var q :| NamedAt(rest[size..], q, Scan(rest[size..]));
            NamedFurther(rest, size, q, Scan(rest[size..]));
            NamedFurther(b, 4, size + q, Scan(rest[size..]));
          }
        }
      }
    }
  }

  lemma NameIsNamed(kind: nat, size: nat, b: Bytes)
    requires size <= |b| && NameAt(kind, size, b) != []
    ensures NamedAt(b, 2, NameAt(kind, size, b)) && 1 <= |NameAt(kind, size, b)| <= 255
  {
  }

  lemma NamedFurther(b: Bytes, n: nat, q: int, s: Bytes)
    requires n <= |b| && NamedAt(b[n..], q, s)
    ensures NamedAt(b, n + q, s)
  {
    SliceOfSlice(b, n, |b|, q + 1, q + 3);
    SliceOfSlice(b, n, |b|, q + 3, q + 3 + |s|);
    assert b[n..|b|] == b[n..];
  }

  // ---- what any record yields --------------------------------------------

  /** A record with all of its fields, whatever is in its extension block; `declared` is the length
      written in front of that. */
  function WithBlock(head: Bytes, rest: Bytes, sessionId: Bytes, ciphers: Bytes, compression: Bytes, declared: nat, block: Bytes): Bytes
    requires |sessionId| < 256 && |compression| < 256
  {
    head + [0x01] + rest + (Prefixed8(sessionId) + (Prefixed(ciphers) + (Prefixed8(compression) + (Put16(declared) + block))))
  }

  /** Whatever stands in its headers, such a record yields what the walk over its extensions does, up
      to the declared length or the end of the record. */
  lemma ParseWithBlock(head: Bytes, rest: Bytes, sessionId: Bytes, ciphers: Bytes, compression: Bytes, declared: nat, block: Bytes)
    requires |head| == 5 && |rest| == 37 && |sessionId| < 256 && |ciphers| < U16 && |compression| < 256 && declared < U16
    ensures Parse(WithBlock(head, rest, sessionId, ciphers, compression, declared, block))
         == Scan(if declared <= |block| then block[..declared] else block)
  {
    hide Scan, AfterRandom, Prefixed8, Prefixed, Put16;
    var fields := Prefixed8(sessionId) + (Prefixed(ciphers) + (Prefixed8(compression) + (Put16(declared) + block)));
    ParseIsOfFields(head, rest, fields);
    FieldsToBlock(sessionId, ciphers, compression, declared, block);
  }

  lemma ParseIsOfFields(head: Bytes, rest: Bytes, fields: Bytes)
    requires |head| == 5 && |rest| == 37
    ensures Parse(head + [0x01] + rest + fields) == AfterRandom(fields)
  {
    hide AfterRandom;
    var record := head + [0x01] + rest + fields;
    assert record[5] == 0x01 && record[43..] == fields;
  }

  lemma FieldsToBlock(sessionId: Bytes, ciphers: Bytes, compression: Bytes, declared: nat, block: Bytes)
    requires |sessionId| < 256 && |ciphers| < U16 && |compression| < 256 && declared < U16
    ensures AfterRandom(Prefixed8(sessionId) + (Prefixed(ciphers) + (Prefixed8(compression) + (Put16(declared) + block))))
         == Scan(if declared <= |block| then block[..declared] else block)
  {
    hide Scan, TakeField8, TakeField, Prefixed8, Prefixed, Put16, Get16;
    var tail := Put16(declared) + block;
    TakePrefixed8(sessionId, Prefixed(ciphers) + (Prefixed8(compression) + tail));
    TakePrefixed(ciphers, Prefixed8(compression) + tail);
    TakePrefixed8(compression, tail);
    Get16Put16(declared);
    assert tail[..2] == Put16(declared) && tail[2..] == block;
  }

  /** Any other record, one that is no ClientHello or in which a field is missing, yields nothing: a
      record that yields a host is of that form. */
  lemma OthersYieldNothing(record: Bytes)
    returns (head: Bytes, rest: Bytes, sessionId: Bytes, ciphers: Bytes, compression: Bytes, declared: nat, block: Bytes)
    requires Parse(record) != []
    ensures |head| == 5 && |rest| == 37 && |sessionId| < 256 && |ciphers| < U16 && |compression| < 256 && declared < U16
    ensures record == WithBlock(head, rest, sessionId, ciphers, compression, declared, block)
  {
    hide Scan, TakeField8, TakeField, Prefixed8, Prefixed;
    head, rest := record[..5], record[6..43];
    var b1 := record[43..];
    assert record == head + [0x01] + rest + b1;
    ScanShort([]);
    sessionId := TakeField8(b1).value;
    Taken8IsPrefixed(b1);
    var b2 := TakeField8(b1).rest;
    ciphers := TakeField(b2).value;
    TakenIsPrefixed(b2);
    var b3 := TakeField(b2).rest;
    compression := TakeField8(b3).value;
    Taken8IsPrefixed(b3);
    var b4 := TakeField8(b3).rest;
    declared, block := Get16(b4[..2]), b4[2..];
    Put16Get16(b4[..2]);
    assert b4 == Put16(declared) + block;
    assert b1 == Prefixed8(sessionId) + (Prefixed(ciphers) + (Prefixed8(compression) + (Put16(declared) + block)));
  }

  /** A server_name is taken when its list is as long as the extension says, starts with a host_name
      of 1 to 255 bytes, and these are there, in the extension or behind it. */
  lemma NameIsTaken(size: nat, host: Bytes, tail: Bytes)
    requires 5 <= size <= 5 + |host| + |tail| && size < U16 && 1 <= |host| <= 255
    ensures Scan(Put16(0) + Put16(size) + (Put16(size - 2) + [0x00] + Put16(|host|) + (host + tail))) == host
  {
    hide Put16, Get16, NameAt;
    var body := Put16(size - 2) + [0x00] + Put16(|host|) + (host + tail);
    var b := Put16(0) + Put16(size) + body;
    Get16Put16(0);
    Get16Put16(size);
    NamedBody(size, host, tail);
    assert b[..2] == Put16(0) && b[2..4] == Put16(size) && b[4..] == body;
  }

  lemma NamedBody(size: nat, host: Bytes, tail: Bytes)
    requires 5 <= size <= 5 + |host| + |tail| && size < U16 && 1 <= |host| <= 255
    ensures NameAt(0, size, Put16(size - 2) + [0x00] + Put16(|host|) + (host + tail)) == host
  {
    hide Put16, Get16;
    var head := Put16(size - 2) + [0x00] + Put16(|host|);
    var body := head + (host + tail);
    Get16Put16(size - 2);
    Get16Put16(|host|);
    assert head[..2] == Put16(size - 2) && head[2] == 0 && head[3..5] == Put16(|host|);
    assert body[..2] == head[..2] && body[2] == head[2] && body[3..5] == head[3..5] && body[5..] == host + tail;
    assert body[5..5 + |host|] == body[5..][..|host|] == host;
  }

  /** Any other extension is passed over: another type, a body of fewer than five bytes, a wrong list
      length, another name type, or a name that is empty, longer than 255 bytes or not all there. */
  lemma OtherIsPassedOver(e: Extension, tail: Bytes)
    requires e.kind < U16 && |e.body| < U16
    requires
      || e.kind != 0 || |e.body| < 5
      || e.body[0] as int * 256 + e.body[1] as int != |e.body| - 2 || e.body[2] != 0
      || (e.body[3] == 0 && e.body[4] == 0) || e.body[3] != 0 || 5 + e.body[4] as int > |e.body| + |tail|
    ensures Scan(EncodeExtension(e) + tail) == Scan(tail)
  {
    hide EncodeExtension, Get16;
    ExtensionRead(e, tail);
    var b := (EncodeExtension(e) + tail)[4..];
    assert b == e.body + tail;
    NotNamed(e, tail);
  }

  lemma NotNamed(e: Extension, tail: Bytes)
    requires
      || e.kind != 0 || |e.body| < 5
      || e.body[0] as int * 256 + e.body[1] as int != |e.body| - 2 || e.body[2] != 0
      || (e.body[3] == 0 && e.body[4] == 0) || e.body[3] != 0 || 5 + e.body[4] as int > |e.body| + |tail|
    ensures NameAt(e.kind, |e.body|, e.body + tail) == []
  {
  }

  /** An extension cut short ends the walk. */
  lemma CutEndsTheWalk(e: Extension, k: nat)
    requires e.kind < U16 && |e.body| < U16 && k < |EncodeExtension(e)|
    ensures Scan(EncodeExtension(e)[..k]) == []
  {
    hide Get16;
    var b := EncodeExtension(e)[..k];
    if k >= 4 {
      Get16Put16(|e.body|);
      assert b[2..4] == Put16(|e.body|);
    }
  }

  // ---- malformed records -------------------------------------------------

  /** An entry of a server_name list behind the first. RFC 6066 section 3 gives every kind of
      name a 16-bit length. */
  datatype Name = Name(kind: byte, text: Bytes)

  function EncodeNames(list: seq<Name>): Bytes {
    if list == [] then [] else [list[0].kind] + Prefixed(list[0].text) + EncodeNames(list[1..])
  }

  ghost predicate ShortNames(list: seq<Name>) {
    forall i :: 0 <= i < |list| ==> list[i].kind != 0 && 1 <= |list[i].text| < U16
  }

  function NameKindsOf(list: seq<Name>): seq<nat> {
    seq(|list|, i requires 0 <= i < |list| => list[i].kind as nat)
  }

  function KindsOf(list: seq<Extension>): seq<nat> {
    seq(|list|, i requires 0 <= i < |list| => list[i].kind)
  }

  predicate Distinct(s: seq<nat>) {
    forall i, j :: 0 <= i < j < |s| ==> s[i] != s[j]
  }

  /** Names of other kinds, no two of one kind. */
  ghost predicate IsNames(b: Bytes) {
    exists list :: ShortNames(list) && b == EncodeNames(list) && Distinct(NameKindsOf(list))
  }

  ghost predicate IsExtensions(b: Bytes) {
    exists list :: ShortExtensions(list) && b == EncodeExtensions(list)
  }

  /** Whole extensions behind the server_name, no two in the block of one type. */
  ghost predicate EndsWhole(h: Hello) {
    exists list :: ShortExtensions(list) && h.after == EncodeExtensions(list)
                   && Distinct(KindsOf(h.before + [ServerName(h.host, h.moreNames)] + list))
  }

  /** A ClientHello with a server_name, alone in its record, as RFC 5246 (sections 6.2.1, 7.4.1.2
      and 7.4.1.4) and RFC 6066 (section 3) lay it out, for any protocol version: every length is
      the length of what it counts, vectors keep to their bounds, extensions and names are whole
      and of different types, and the first name is a host_name of at most 255 bytes. The data
      of other extensions is opaque. */
  ghost predicate StrictHello(h: Hello) {
    && WellFormed(h) && h.declared == |UpToName(h)| + |h.after| && IsNames(h.moreNames) && EndsWhole(h)
    && |h.sessionId| <= 32 && 2 <= |h.ciphers| && |h.ciphers| % 2 == 0 && 0 in h.compression
    && h.recordHeader[0] == 0x16 && Get16(h.recordHeader[3..5]) == |EncodeHello(h)| - 5 <= 0x4000
    && Get24(h.handshakeLength) == |EncodeHello(h)| - 9
  }

  function Get24(b: Bytes): nat
    requires |b| == 3
  {
    b[0] as int * 0x1_0000 + b[1] as int * 256 + b[2] as int
  }

  ghost predicate HelloNames(record: Bytes, host: Bytes) {
    exists h :: StrictHello(h) && EncodeHello(h) == record && h.host == host
  }

  /** The checks that parseSNI leaves out, as a walk over the same fields. */
  predicate Clean(record: Bytes) {
    && |record| >= 43 && record[0] == 0x16 && record[5] == 0x01
    && Get16(record[3..5]) == |record| - 5 <= 0x4000 && Get24(record[6..9]) == |record| - 9
    && CleanSession(record[43..])
  }

  predicate CleanSession(b: Bytes) {
    TakeField8(b).Field? && |TakeField8(b).value| <= 32 && CleanCiphers(TakeField8(b).rest)
  }

  predicate CleanCiphers(b: Bytes) {
    TakeField(b).Field? && 2 <= |TakeField(b).value| && |TakeField(b).value| % 2 == 0 && CleanCompression(TakeField(b).rest)
  }

  predicate CleanCompression(b: Bytes) {
    TakeField8(b).Field? && 0 in TakeField8(b).value && CleanBlock(TakeField8(b).rest)
  }

  predicate CleanBlock(b: Bytes) {
    |b| >= 2 && Get16(b[..2]) == |b| - 2 && CleanList(b[2..])
  }

  predicate CleanList(b: Bytes) {
    CleanExtensions(b) && Distinct(Kinds(b))
  }

  /** Whole extensions up to a clean server_name, and whole other ones after. */
  predicate CleanExtensions(b: Bytes) {
    && |b| >= 4
    && var kind, size, rest := Get16(b[..2]), Get16(b[2..4]), b[4..];
       && size <= |rest|
       && if kind == 0 then CleanName(rest[..size]) && WholeExtensions(rest[size..]) else CleanExtensions(rest[size..])
  }

  /** The list fills the extension, its first name fits, and so do the others behind it. */
  predicate CleanName(body: Bytes) {
    && FirstNameFits(body)
    && var more := body[5 + Get16(body[3..5])..];
       WholeNames(more) && Distinct(NameKinds(more))
  }

  predicate FirstNameFits(body: Bytes) {
    |body| >= 5 && Get16(body[..2]) == |body| - 2 && body[2] == 0 && 0 < Get16(body[3..5]) <= |body| - 5
  }

  predicate WholeNames(b: Bytes) {
    b == []
    || (|b| >= 3 && b[0] != 0 && 0 < Get16(b[1..3]) <= |b| - 3 && WholeNames(b[3 + Get16(b[1..3])..]))
  }

  predicate WholeExtensions(b: Bytes) {
    || b == []
    || (&& |b| >= 4
        && var kind, size, rest := Get16(b[..2]), Get16(b[2..4]), b[4..];
           kind != 0 && size <= |rest| && WholeExtensions(rest[size..]))
  }

  function NameKinds(b: Bytes): seq<nat> {
    if |b| < 3 || Get16(b[1..3]) > |b| - 3 then [] else [b[0] as nat] + NameKinds(b[3 + Get16(b[1..3])..])
  }

  function Kinds(b: Bytes): seq<nat> {
    if |b| < 4 || Get16(b[2..4]) > |b[4..]| then []
    else [Get16(b[..2])] + Kinds(b[4..][Get16(b[2..4])..])
  }

  lemma Taken8IsPrefixed(b: Bytes)
    requires TakeField8(b).Field?
    ensures |TakeField8(b).value| < 256 && b == Prefixed8(TakeField8(b).value) + TakeField8(b).rest
  {
  }

  /** The extension at the front of the bytes. */
  lemma ExtensionAt(b: Bytes) returns (e: Extension, after: Bytes)
    requires |b| >= 4 && Get16(b[2..4]) <= |b[4..]|
    ensures e.kind == Get16(b[..2]) && e.body == b[4..][..Get16(b[2..4])] && after == b[4..][Get16(b[2..4])..]
    ensures e.kind < U16 && |e.body| < U16 && b == EncodeExtension(e) + after
  {
    hide Get16, Put16;
    var size := Get16(b[2..4]);
    e, after := Extension(Get16(b[..2]), b[4..][..size]), b[4..][size..];
    Put16Get16(b[..2]);
    Put16Get16(b[2..4]);
    assert b == b[..2] + b[2..4] + (e.body + after);
  }

  /** The name at the front of the bytes. */
  lemma NameEntryAt(b: Bytes) returns (e: Name, after: Bytes)
    requires |b| >= 3 && Get16(b[1..3]) <= |b| - 3
    ensures e.kind == b[0] && |e.text| == Get16(b[1..3]) && after == b[3 + Get16(b[1..3])..]
    ensures |e.text| < U16 && b == [e.kind] + Prefixed(e.text) + after
  {
    hide Get16, Put16;
    var n := Get16(b[1..3]);
    e, after := Name(b[0], b[3..3 + n]), b[3 + n..];
    Put16Get16(b[1..3]);
    assert b == [b[0]] + (b[1..3] + e.text) + after;
  }

  lemma NameEntryRead(e: Name, after: Bytes)
    requires |e.text| < U16
    ensures var b := [e.kind] + Prefixed(e.text) + after;
      |b| >= 3 && b[0] == e.kind && Get16(b[1..3]) == |e.text| <= |b| - 3 && b[3 + |e.text|..] == after
  {
    var b := [e.kind] + Prefixed(e.text) + after;
    Get16Put16(|e.text|);
    assert b == [e.kind] + Put16(|e.text|) + (e.text + after);
    assert b[1..3] == Put16(|e.text|) && b[3..] == e.text + after;
    assert b[3 + |e.text|..] == b[3..][|e.text|..];
  }

  lemma {:induction false} NamesAreEncoded(b: Bytes) returns (list: seq<Name>)
    requires WholeNames(b)
    ensures ShortNames(list) && b == EncodeNames(list)
    decreases |b|
  {
    hide Get16, Prefixed;
    if b == [] {
      list := [];
    } else {
      var e, after := NameEntryAt(b);
      var rest := NamesAreEncoded(after);
      list := [e] + rest;
      assert list[1..] == rest;
    }
  }

  lemma {:induction false} EncodedNamesRead(list: seq<Name>)
    requires ShortNames(list)
    ensures WholeNames(EncodeNames(list)) && NameKinds(EncodeNames(list)) == NameKindsOf(list)
  {
    hide Get16, Prefixed;
    if list != [] {
      NameEntryRead(list[0], EncodeNames(list[1..]));
      EncodedNamesRead(list[1..]);
      assert NameKindsOf(list) == [list[0].kind as nat] + NameKindsOf(list[1..]);
    }
  }

  /** The walk accepts exactly the encodings of whole lists of other names. */
  lemma NamesIff(b: Bytes)
    ensures IsNames(b) <==> WholeNames(b) && Distinct(NameKinds(b))
  {
    hide EncodeNames, WholeNames, NameKinds, NameKindsOf, Distinct;
    if IsNames(b) {
      var list :| ShortNames(list) && b == EncodeNames(list) && Distinct(NameKindsOf(list));
      EncodedNamesRead(list);
    }
    if WholeNames(b) && Distinct(NameKinds(b)) {
      var list := NamesAreEncoded(b);
      EncodedNamesRead(list);
    }
  }

  ghost predicate Encodable(list: seq<Extension>) {
    forall i :: 0 <= i < |list| ==> list[i].kind < U16 && |list[i].body| < U16
  }

  lemma {:induction false} EncodedKinds(list: seq<Extension>)
    requires Encodable(list)
    ensures Kinds(EncodeExtensions(list)) == KindsOf(list)
  {
    hide EncodeExtension, Get16;
    if list != [] {
      ExtensionRead(list[0], EncodeExtensions(list[1..]));
      EncodedKinds(list[1..]);
      assert KindsOf(list) == [list[0].kind] + KindsOf(list[1..]);
    }
  }

  lemma {:induction false} ExtensionsAppend(a: seq<Extension>, b: seq<Extension>)
    ensures EncodeExtensions(a + b) == EncodeExtensions(a) + EncodeExtensions(b)
  {
    hide EncodeExtension, EncodeExtensions;
    if a == [] {
      assert a + b == b;
      NoExtensions();
    } else {
      ExtensionsAppend(a[1..], b);
      ExtensionsCons(a);
      ExtensionsCons(a + b);
      assert (a + b)[1..] == a[1..] + b;
    }
  }

  lemma NoExtensions()
    ensures EncodeExtensions([]) == []
  {
  }

  lemma ExtensionsCons(list: seq<Extension>)
    requires list != []
    ensures EncodeExtensions(list) == EncodeExtension(list[0]) + EncodeExtensions(list[1..])
  {
  }

  /** The types in a block of three parts. */
  lemma BlockKinds(before: seq<Extension>, name: Extension, list: seq<Extension>)
    requires ShortExtensions(before) && ShortExtensions(list) && name.kind == 0 && |name.body| < U16
    ensures Kinds(EncodeExtensions(before) + EncodeExtension(name) + EncodeExtensions(list)) == KindsOf(before + [name] + list)
  {
    hide EncodeExtension, Kinds, KindsOf;
    ExtensionsAppend(before + [name], list);
    ExtensionsAppend(before, [name]);
    OneExtension(name);
    EncodedKinds(before + [name] + list);
  }

  lemma OneExtension(e: Extension)
    ensures EncodeExtensions([e]) == EncodeExtension(e)
  {
    hide EncodeExtension;
    assert [e][1..] == [] && EncodeExtensions([]) == [];
  }

  lemma {:induction false} WholeIsEncoded(b: Bytes)
    requires WholeExtensions(b)
    ensures IsExtensions(b)
  {
    hide EncodeExtension, Get16;
    if b == [] {
      assert ShortExtensions([]) && b == EncodeExtensions([]);
    } else {
      var e, after := ExtensionAt(b);
      WholeIsEncoded(after);
      var list :| ShortExtensions(list) && after == EncodeExtensions(list);
      assert ([e] + list)[1..] == list;
      assert ShortExtensions([e] + list) && b == EncodeExtensions([e] + list);
    }
  }

  lemma {:induction false} EncodedIsWhole(list: seq<Extension>)
    requires ShortExtensions(list)
    ensures WholeExtensions(EncodeExtensions(list))
  {
    hide EncodeExtension, Get16;
    if list != [] {
      ExtensionRead(list[0], EncodeExtensions(list[1..]));
      EncodedIsWhole(list[1..]);
    }
  }

  lemma {:induction false} WholeHasNoName(b: Bytes)
    requires WholeExtensions(b)
    ensures Scan(b) == []
  {
    hide Get16;
    if b != [] { WholeHasNoName(b[4..][Get16(b[2..4])..]); }
  }

  /** A server_name body that passes the check: parseSNI takes its name if that is short enough. */
  lemma NameFits(body: Bytes, tail: Bytes)
    requires FirstNameFits(body) && |body| < U16
    ensures
      var n := Get16(body[3..5]);
      && NameAt(0, |body|, body + tail) == (if n <= 255 then body[5..5 + n] else [])
      && Extension(0, body) == ServerName(body[5..5 + n], body[5 + n..])
  {
    var n := Get16(body[3..5]);
    var b := body + tail;
    assert b[..2] == body[..2] && b[3..5] == body[3..5] && b[5..5 + n] == body[5..5 + n];
    Put16Get16(body[..2]);
    Put16Get16(body[3..5]);
    assert body == body[..2] + [body[2]] + (body[3..5] + body[5..5 + n]) + body[5 + n..];
  }

  lemma ServerNameIsClean(host: Bytes, moreNames: Bytes)
    requires 1 <= |host| && 5 + |host| + |moreNames| < U16
    ensures CleanName(ServerName(host, moreNames).body) <==> IsNames(moreNames)
  {
    hide IsNames, WholeNames, NameKinds, Distinct, Put16;
    var body := ServerName(host, moreNames).body;
    Get16Put16(3 + |host| + |moreNames|);
    Get16Put16(|host|);
    var head := Put16(3 + |host| + |moreNames|) + [0x00] + Put16(|host|);
    assert body == head + (host + moreNames);
    assert body[..2] == head[..2] && body[3..5] == head[3..5] && body[2] == head[2] && body[5..] == host + moreNames;
    assert body[5 + |host|..] == body[5..][|host|..] == moreNames;
    NamesIff(moreNames);
  }

  /** A clean block that starts with its server_name. */
  lemma NameFirst(e: Extension, rest: Bytes) returns (moreNames: Bytes)
    requires e.kind == 0 && |e.body| < U16 && CleanName(e.body) && WholeExtensions(rest) && Scan(EncodeExtension(e) + rest) != []
    ensures var host := Scan(EncodeExtension(e) + rest);
      1 <= |host| <= 255 && 5 + |host| + |moreNames| < U16 && IsNames(moreNames) && e == ServerName(host, moreNames)
  {
    hide EncodeExtension, Get16, ServerName, FirstNameFits, NameAt, WholeExtensions, WholeNames, NameKinds, Distinct, IsNames;
    ExtensionRead(e, rest);
    var b := EncodeExtension(e) + rest;
    assert b[4..] == e.body + rest;
    var n := NameLength(e.body);
    moreNames := e.body[5 + n..];
    NamesIff(moreNames);
    NameFits(e.body, rest);
    WholeHasNoName(rest);
    assert e == Extension(0, e.body);
  }

  lemma OtherFirst(e: Extension, rest: Bytes)
    requires 0 < e.kind < U16 && |e.body| < U16
    ensures Scan(EncodeExtension(e) + rest) == Scan(rest)
    ensures CleanExtensions(EncodeExtension(e) + rest) <==> CleanExtensions(rest)
  {
    hide EncodeExtension, Get16;
    ScanOther(e, rest);
    ExtensionRead(e, rest);
  }

  lemma ServerNameFirst(e: Extension, rest: Bytes)
    requires e.kind == 0 && |e.body| < U16
    ensures CleanExtensions(EncodeExtension(e) + rest) <==> CleanName(e.body) && WholeExtensions(rest)
  {
    hide EncodeExtension, Get16, CleanName;
    ExtensionRead(e, rest);
  }

  /** A clean block in which parseSNI finds a name is an encoding around that name. */
  lemma {:induction false} CleanIsEncoded(b: Bytes) returns (before: seq<Extension>, moreNames: Bytes, after: Bytes)
    requires CleanExtensions(b) && Scan(b) != []
    ensures ShortExtensions(before) && IsExtensions(after) && IsNames(moreNames)
    ensures 1 <= |Scan(b)| <= 255 && 5 + |Scan(b)| + |moreNames| < U16
    ensures b == EncodeExtensions(before) + EncodeExtension(ServerName(Scan(b), moreNames)) + after
    decreases |b|
  {
    hide EncodeExtension, Get16, ServerName, CleanName, Scan, CleanExtensions, WholeExtensions, IsExtensions, IsNames;
    CleanHasExtension(b);
    var e, rest := ExtensionAt(b);
    if e.kind == 0 {
      ServerNameFirst(e, rest);
      moreNames := NameFirst(e, rest);
      before, after := [], rest;
      WholeIsEncoded(rest);
      assert EncodeExtensions(before) + EncodeExtension(e) == EncodeExtension(e);
    } else {
      OtherFirst(e, rest);
      var tail;
      tail, moreNames, after := CleanIsEncoded(rest);
      before := [e] + tail;
      assert before[1..] == tail;
      assert EncodeExtensions(before) == EncodeExtension(e) + EncodeExtensions(tail);
    }
  }

  lemma CleanHasExtension(b: Bytes)
    requires CleanExtensions(b)
    ensures |b| >= 4 && Get16(b[2..4]) <= |b[4..]|
  {
  }

  lemma NameLength(body: Bytes) returns (n: nat)
    requires FirstNameFits(body)
    ensures n == Get16(body[3..5]) && 0 < n && 5 + n <= |body|
  {
    n := Get16(body[3..5]);
  }

  lemma {:induction false} EncodedIsClean(before: seq<Extension>, host: Bytes, moreNames: Bytes, after: Bytes)
    requires ShortExtensions(before) && IsExtensions(after) && IsNames(moreNames)
    requires 1 <= |host| <= 255 && 5 + |host| + |moreNames| < U16
    ensures CleanExtensions(EncodeExtensions(before) + EncodeExtension(ServerName(host, moreNames)) + after)
  {
    hide EncodeExtension, Get16, ServerName, CleanName, CleanExtensions, WholeExtensions, IsNames;
    var name := EncodeExtension(ServerName(host, moreNames));
    if before == [] {
      assert EncodeExtensions(before) + name + after == name + after;
      NameExtension(host, moreNames);
      ServerNameFirst(ServerName(host, moreNames), after);
      ServerNameIsClean(host, moreNames);
      var list :| ShortExtensions(list) && after == EncodeExtensions(list);
      EncodedIsWhole(list);
    } else {
      var rest := EncodeExtensions(before[1..]) + name + after;
      assert EncodeExtensions(before) + name + after == EncodeExtension(before[0]) + rest;
      OtherFirst(before[0], rest);
      EncodedIsClean(before[1..], host, moreNames, after);
    }
  }

  lemma EncodedListIsClean(h: Hello)
    requires WellFormed(h) && IsNames(h.moreNames) && EndsWhole(h)
    ensures CleanList(UpToName(h) + h.after)
  {
    hide CleanExtensions, EncodeExtension, EncodeExtensions, ServerName, IsNames, Kinds, KindsOf, Distinct;
    var list :| ShortExtensions(list) && h.after == EncodeExtensions(list)
                && Distinct(KindsOf(h.before + [ServerName(h.host, h.moreNames)] + list));
    assert IsExtensions(h.after);
    EncodedIsClean(h.before, h.host, h.moreNames, h.after);
    NameExtension(h.host, h.moreNames);
    BlockKinds(h.before, ServerName(h.host, h.moreNames), list);
  }

  /** A clean block, put together again. */
  lemma CleanListIsEncoded(b: Bytes, h: Hello)
    requires CleanList(b) && ShortExtensions(h.before) && IsExtensions(h.after) && 5 + |h.host| + |h.moreNames| < U16
    requires b == EncodeExtensions(h.before) + EncodeExtension(ServerName(h.host, h.moreNames)) + h.after
    ensures EndsWhole(h)
  {
    hide CleanExtensions, EncodeExtension, EncodeExtensions, ServerName, Kinds, KindsOf, Distinct;
    var list :| ShortExtensions(list) && h.after == EncodeExtensions(list);
    NameExtension(h.host, h.moreNames);
    BlockKinds(h.before, ServerName(h.host, h.moreNames), list);
  }

  lemma EncodedFieldsAreClean(h: Hello)
    requires StrictHello(h)
    ensures CleanSession(Fields(h))
  {
    hide CleanExtensions, EncodeExtension, EncodeExtensions, ServerName, EncodeHello, IsNames, IsExtensions, EndsWhole, Kinds, Distinct;
    hide TakeField, TakeField8, Get16, Get24, Put16, Prefixed, Prefixed8;
    var b2 := Prefixed8(h.compression) + Block(h);
    assert Fields(h) == Prefixed8(h.sessionId) + (Prefixed(h.ciphers) + b2);
    TakePrefixed8(h.sessionId, Prefixed(h.ciphers) + b2);
    TakePrefixed(h.ciphers, b2);
    TakePrefixed8(h.compression, Block(h));
    Get16Put16(h.declared);
    assert Block(h)[..2] == Put16(h.declared) && Block(h)[2..] == UpToName(h) + h.after;
    EncodedListIsClean(h);
  }

  lemma EncodedRecordIsClean(h: Hello)
    requires StrictHello(h)
    ensures Clean(EncodeHello(h))
  {
    hide CleanSession, Fields, UpToName, EndsWhole, IsNames, Get16, Get24;
    var record := EncodeHello(h);
    assert record[3..5] == h.recordHeader[3..5] && record[6..9] == h.handshakeLength && record[43..] == Fields(h);
    EncodedFieldsAreClean(h);
  }

  lemma CleanListHas(b: Bytes)
    requires CleanList(b)
    ensures CleanExtensions(b)
  {
  }

  /** The fields of a clean record, put together again. */
  lemma CleanRecordIsEncoded(record: Bytes) returns (h: Hello)
    requires Clean(record) && Parse(record) != []
    ensures StrictHello(h) && EncodeHello(h) == record && h.host == Parse(record)
  {
    hide CleanList, EncodeExtension, EncodeExtensions, ServerName, IsExtensions, IsNames, EndsWhole, Scan;
    hide TakeField, TakeField8, Get16, Put16, Prefixed, Prefixed8;
    var b0 := record[43..];
    var b1 := TakeField8(b0).rest;
    var b2 := TakeField(b1).rest;
    var b3 := TakeField8(b2).rest;
    Taken8IsPrefixed(b0);
    TakenIsPrefixed(b1);
    Taken8IsPrefixed(b2);
    Put16Get16(b3[..2]);
    assert Clamp(b3[2..], Get16(b3[..2])) == b3[2..];
    CleanListHas(b3[2..]);
    var before, moreNames, after := CleanIsEncoded(b3[2..]);
    h := Hello(record[..5], record[6..9], record[9..11], record[11..43], TakeField8(b0).value, TakeField(b1).value,
               TakeField8(b2).value, |b3| - 2, before, Scan(b3[2..]), moreNames, after);
    CleanListIsEncoded(b3[2..], h);
    assert Block(h) == b3[..2] + b3[2..] == b3;
    assert Fields(h) == b0;
    assert record == record[..5] + [record[5]] + record[6..9] + record[9..11] + record[11..43] + b0;
    assert h.recordHeader[3..5] == record[3..5];
  }

  lemma StrictHelloIsFound(h: Hello)
    requires StrictHello(h)
    ensures Clean(EncodeHello(h)) && h.host != [] && Parse(EncodeHello(h)) == h.host
  {
    hide Clean, Parse, EncodeHello;
    EncodedRecordIsClean(h);
    FindsHost(h);
  }

  /** A record is a ClientHello that names a host exactly when parseSNI returns that host and the
      checks it leaves out pass. */
  lemma HelloNamesHostIff(record: Bytes, host: Bytes)
    ensures HelloNames(record, host) <==> Clean(record) && host != [] && Parse(record) == host
  {
    hide Clean, Parse;
    if HelloNames(record, host) {
      var h :| StrictHello(h) && EncodeHello(h) == record && h.host == host;
      StrictHelloIsFound(h);
    }
    if Clean(record) && host != [] && Parse(record) == host {
      var h := CleanRecordIsEncoded(record);
    }
  }

  /** The comment above parseSNI promises the empty string for any malformed field. A returned
      host keeps the promise exactly when the checks pass. */
  lemma PromiseKeptIff(record: Bytes)
    ensures (Parse(record) != [] ==> HelloNames(record, Parse(record))) <==> (Parse(record) != [] ==> Clean(record))
  {
    hide Clean, Parse, HelloNames;
    HelloNamesHostIff(record, Parse(record));
  }

  /** A ClientHello record around an extension block, with nothing wrong outside the block. */
  function Wrapped(random: Bytes, block: Bytes): Bytes
    requires |random| == 32 && |block| < 0x1000
  {
    WrappedHead(random, |block| + 47) + WrappedFields(block)
  }

  function WrappedHead(random: Bytes, size: nat): (head: Bytes)
    requires |random| == 32 && size >= 4
    ensures |head| == 43
  {
    [0x16, 0x03, 0x01] + Put16(size) + [0x01, 0x00] + Put16(size - 4) + [0x03, 0x03] + random
  }

  function WrappedFields(block: Bytes): Bytes {
    Prefixed8([]) + (Prefixed([0x00, 0x2F]) + (Prefixed8([0x00]) + Prefixed(block)))
  }

  lemma WrappedHeadRead(random: Bytes, size: nat)
    requires |random| == 32 && 4 <= size < U16
    ensures
      var head := WrappedHead(random, size);
      head[0] == 0x16 && head[5] == 0x01 && Get16(head[3..5]) == size && Get24(head[6..9]) == size - 4
  {
    hide Put16;
    var head := WrappedHead(random, size);
    assert head[3..5] == Put16(size) && head[6..9] == [0x00] + Put16(size - 4);
    Get16Put16(size);
    Get16Put16(size - 4);
  }

  lemma WrappedFieldsRead(block: Bytes)
    requires |block| < 0x1000
    ensures
      var b := WrappedFields(block);
      && |b| == |block| + 9 && AfterRandom(b) == Scan(block) && (CleanSession(b) <==> CleanList(block))
  {
    hide Scan, CleanList, TakeField, TakeField8, Put16, Get16, Prefixed, Prefixed8;
    var b2 := Prefixed8([0x00]) + Prefixed(block);
    PrefixedSizes(block);
    TakePrefixed8([], Prefixed([0x00, 0x2F]) + b2);
    TakePrefixed([0x00, 0x2F], b2);
    TakePrefixed8([0x00], Prefixed(block));
    BlockOfPrefixed(block);
  }

  lemma WrappedRead(random: Bytes, block: Bytes)
    requires |random| == 32 && |block| < 0x1000
    ensures Parse(Wrapped(random, block)) == Scan(block) && (Clean(Wrapped(random, block)) <==> CleanList(block))
  {
    hide WrappedHead, WrappedFields, Parse, Clean, Scan, CleanList, AfterRandom, CleanSession, Get16, Get24;
    WrappedHeadRead(random, |block| + 47);
    WrappedFieldsRead(block);
    HeadAndFields(WrappedHead(random, |block| + 47), WrappedFields(block));
  }

  lemma HeadAndFields(head: Bytes, fields: Bytes)
    requires |head| == 43 && head[0] == 0x16 && head[5] == 0x01
    requires Get16(head[3..5]) == |fields| + 38 <= 0x4000 && Get24(head[6..9]) == |fields| + 34
    ensures Parse(head + fields) == AfterRandom(fields) && (Clean(head + fields) <==> CleanSession(fields))
  {
    hide AfterRandom, CleanSession, Get16, Get24;
    var record := head + fields;
    assert record[43..] == fields && record[3..5] == head[3..5] && record[6..9] == head[6..9];
  }

  lemma PrefixedSizes(block: Bytes)
    ensures |Prefixed8([])| == 1 && |Prefixed([0x00, 0x2F])| == 4 && |Prefixed8([0x00])| == 2 && |Prefixed(block)| == 2 + |block|
  {
  }

  lemma BlockOfPrefixed(block: Bytes)
    requires |block| < 0x1000
    ensures
      var b := Prefixed(block);
      |b| >= 2 && Get16(b[..2]) == |block| && b[2..] == block && Clamp(b[2..], Get16(b[..2])) == block
  {
    var b := Prefixed(block);
    Get16Put16(|block|);
    assert b[..2] == Put16(|block|) && b[2..] == block;
  }

  /** A record with one server_name: parseSNI takes the host whatever is behind it in the list,
      but the record is well-formed exactly when that is a list of other names. */
  lemma NamesBehindAreIgnored(random: Bytes, host: Bytes, moreNames: Bytes)
    requires |random| == 32 && 1 <= |host| <= 255 && |moreNames| < 0xE00
    ensures
      var record := Wrapped(random, EncodeExtension(ServerName(host, moreNames)));
      Parse(record) == host && (HelloNames(record, host) <==> IsNames(moreNames))
  {
    hide HelloNames, Wrapped, Clean, Scan, CleanExtensions, CleanName, EncodeExtension, ServerName, Get16, IsNames, Kinds, Distinct;
    var e := ServerName(host, moreNames);
    var block := EncodeExtension(e);
    NameExtension(host, moreNames);
    ExtensionSize(e);
    assert block + [] == block;
    WrappedRead(random, block);
    HelloNamesHostIff(Wrapped(random, block), host);
    ScanFinds(host, moreNames, []);
    ServerNameFirst(e, []);
    ServerNameIsClean(host, moreNames);
    OneKind(e);
  }

  lemma ExtensionSize(e: Extension)
    ensures |EncodeExtension(e)| == 4 + |e.body|
  {
  }

  lemma OneKind(e: Extension)
    requires e.kind < U16 && |e.body| < U16
    ensures Distinct(Kinds(EncodeExtension(e)))
  {
    hide EncodeExtension, Kinds;
    OneExtension(e);
    EncodedKinds([e]);
  }

  /** Two families of records that break the promise, for every host of 2 to 255 bytes: a name
      that overruns its extension, and a server_name with a wrong list length before the one
      that is read. */
  lemma MalformedIsNamed(random: Bytes, host: Bytes)
    requires |random| == 32 && 2 <= |host| <= 255
    ensures
      var overrun := Put16(0) + Put16(6) + (Put16(4) + [0x00] + Prefixed(host));
      var record := Wrapped(random, overrun);
      Parse(record) == host && !HelloNames(record, host)
    ensures
      var wrongLength := EncodeExtension(Extension(0, Put16(9) + [0, 0, 0])) + EncodeExtension(ServerName(host, []));
      var record := Wrapped(random, wrongLength);
      Parse(record) == host && !HelloNames(record, host)
  {
    hide HelloNames, Wrapped, Clean, Scan, CleanExtensions, EncodeExtension, ServerName, Put16, Get16, Prefixed;
    var overrun := Put16(0) + Put16(6) + (Put16(4) + [0x00] + Prefixed(host));
    OverrunningName(host);
    WrappedRead(random, overrun);
    HelloNamesHostIff(Wrapped(random, overrun), host);
    var wrongLength := EncodeExtension(Extension(0, Put16(9) + [0, 0, 0])) + EncodeExtension(ServerName(host, []));
    WrongLength(host);
    WrappedRead(random, wrongLength);
    HelloNamesHostIff(Wrapped(random, wrongLength), host);
  }

  /** Two more: a second name cut after its kind, and a second host_name. */
  lemma MalformedTailIsNamed(random: Bytes, host: Bytes, more: Bytes)
    requires |random| == 32 && 1 <= |host| <= 255 && (more == [0x01] || more == [0x00] + Prefixed(host))
    ensures
      var record := Wrapped(random, EncodeExtension(ServerName(host, more)));
      Parse(record) == host && !HelloNames(record, host)
  {
    BadNames(host, more);
    NamesBehindAreIgnored(random, host, more);
  }

  lemma BadNames(host: Bytes, more: Bytes)
    requires 1 <= |host| <= 255 && (more == [0x01] || more == [0x00] + Prefixed(host))
    ensures |more| < 0xE00 && !IsNames(more)
  {
    hide NameKinds, IsNames, Put16;
    assert |more| < 0xE00;
    NamesIff(more);
  }

  lemma OverrunningName(host: Bytes)
    requires 2 <= |host| <= 255
    ensures
      var b := Put16(0) + Put16(6) + (Put16(4) + [0x00] + Prefixed(host));
      |b| < 0x1000 && Scan(b) == host && !CleanExtensions(b)
  {
    hide Put16;
    var tail := Put16(4) + [0x00] + Prefixed(host);
    var b := Put16(0) + Put16(6) + tail;
    Get16Put16(0);
    Get16Put16(6);
    Get16Put16(4);
    Get16Put16(|host|);
    assert b[..2] == Put16(0) && b[2..4] == Put16(6) && b[4..] == tail;
    assert tail[..2] == Put16(4) && tail[3..5] == Put16(|host|) && tail[5..5 + |host|] == host;
    assert NameAt(0, 6, tail) == host;
    assert tail[..6][3..5] == tail[3..5];
  }

  lemma WrongLength(host: Bytes)
    requires 2 <= |host| <= 255
    ensures
      var b := EncodeExtension(Extension(0, Put16(9) + [0, 0, 0])) + EncodeExtension(ServerName(host, []));
      |b| < 0x1000 && Scan(b) == host && !CleanExtensions(b)
  {
    hide Put16, WholeExtensions, ServerName;
    var bad, good := Extension(0, Put16(9) + [0, 0, 0]), EncodeExtension(ServerName(host, []));
    var b := EncodeExtension(bad) + good;
    NameExtension(host, []);
    ExtensionRead(bad, good);
    Get16Put16(9);
    assert bad.body[..2] == Put16(9) && (bad.body + good)[..2] == Put16(9) && b[4..] == bad.body + good;
    ScanFinds(host, [], []);
    assert good + [] == good;
  }
}

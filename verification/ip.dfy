/** net.IP: a byte slice of length 4 or 16 (or nil), its two normal forms, and the text
    form used as a map key everywhere in the repository. */
module IP {
  import opened Bytes

  type Addr = Bytes

  const V4_PREFIX: Bytes := [0, 0, 0, 0, 0, 0, 0, 0, 0, 0, 255, 255]

  /** ip.To4(), with nil as the empty slice. */
  function To4(ip: Bytes): (r: Bytes)
    ensures r == [] || |r| == 4
  {
    if |ip| == 4 then ip
    else if |ip| == 16 && ip[..12] == V4_PREFIX then ip[12..]
    else []
  }

  /** ip.To16(), with nil as the empty slice. */
  function To16(ip: Bytes): (r: Bytes)
    ensures r == [] || |r| == 16
  {
    if |ip| == 4 then V4_PREFIX + ip
    else if |ip| == 16 then ip
    else []
  }

  /** The form put on the wire: To4 when there is one, To16 otherwise. */
  function Wire(ip: Bytes): (r: Bytes)
    ensures |r| == 0 || |r| == 4 || |r| == 16
  {
    if To4(ip) != [] then To4(ip) else To16(ip)
  }

  /** ip.String() up to injective renaming: the text of an address and of its
      IPv4-in-IPv6 form agree, and nothing else does. */
  function Key(ip: Bytes): Bytes {
    if To4(ip) != [] then To4(ip) else ip
  }

  lemma KeyOfWire(ip: Bytes)
    requires |ip| == 4 || |ip| == 16
    ensures Wire(ip) == Key(ip) && Key(Wire(ip)) == Key(ip) && Wire(Wire(ip)) == Wire(ip)
  {
  }

  lemma KeyIdempotent(ip: Bytes)
    ensures Key(Key(ip)) == Key(ip)
  {
  }

  /** The two forms of an IPv4 address have one wire form and one text, every other IPv6 address
      keeps its 16 bytes, and slices of other lengths have no wire form. */
  lemma Forms(ip: Bytes)
    ensures |ip| == 4 ==> Wire(ip) == ip && Wire([0, 0, 0, 0, 0, 0, 0, 0, 0, 0, 255, 255] + ip) == ip
                          && Key(ip) == ip && Key([0, 0, 0, 0, 0, 0, 0, 0, 0, 0, 255, 255] + ip) == ip
    ensures |ip| == 16 && ip[..12] != [0, 0, 0, 0, 0, 0, 0, 0, 0, 0, 255, 255] ==> Wire(ip) == ip && Key(ip) == ip
    ensures |ip| != 4 && |ip| != 16 ==> Wire(ip) == [] && Key(ip) == ip
  {
    if |ip| == 4 {
      var mapped := V4_PREFIX + ip;
      assert mapped[..12] == V4_PREFIX && mapped[12..] == ip;
    }
  }
}

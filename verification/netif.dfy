/** Choosing the interface the test runs over and its internal IPv4
    address, for the header event. Interfaces are plain records: querying
    the operating system for them is outside the model, and an address
    query that fails is an empty address list, which both rules treat the
    same way as a failure. */
module NetIf {
  import opened Wrappers
  import opened Strconv

  newtype byte = x: int | 0 <= x < 256

  /** An interface address (a `*net.IPNet`); only its IP matters here. The
      IP has 4 or 16 bytes. */
  datatype Addr = Addr(ip: seq<byte>)

  datatype Interface = Interface(
    index: int, mtu: int, name: string, hardwareAddr: seq<byte>,
    up: bool, loopback: bool, addrs: seq<Addr>)

  /** The zero value of Go's `net.Interface`. */
  const NoInterface := Interface(0, 0, "", [], false, false, [])

  const NotAvailable := "n/a"

  /** An interface the WAN rule accepts: one named `eth0`, or one that is up,
      not a loopback, and has more than one address. */
  predicate IsWanCandidate(i: Interface) {
    i.name == "eth0" || (i.up && !i.loopback && |i.addrs| > 1)
  }

  /** `getWanInterface`: the first candidate in list order, or the zero
      interface if there is none. */
  method GetWanInterface(ifs: seq<Interface>) returns (r: Interface)
    ensures (forall i :: 0 <= i < |ifs| ==> !IsWanCandidate(ifs[i])) ==> r == NoInterface
    ensures (exists i :: 0 <= i < |ifs| && IsWanCandidate(ifs[i])) ==>
              exists k :: 0 <= k < |ifs| && r == ifs[k] && IsWanCandidate(ifs[k]) &&
                          forall j :: 0 <= j < k ==> !IsWanCandidate(ifs[j])
  {
    r := NoInterface;
    var i := 0;
    while i < |ifs|
      invariant 0 <= i <= |ifs|
      invariant forall j :: 0 <= j < i ==> !IsWanCandidate(ifs[j])
      invariant r == NoInterface
    {
      if ifs[i].name == "eth0" {
        r := ifs[i];
        return;
      } else if ifs[i].up && !ifs[i].loopback {
        if |ifs[i].addrs| > 1 {
          r := ifs[i];
          return;
        }
      }
      i := i + 1;
    }
  }

  const V4InV6Prefix: seq<byte> := [0, 0, 0, 0, 0, 0, 0, 0, 0, 0, 0xff, 0xff]

  /** `net.IP.To4`: the four bytes of an IPv4 address, written in 4-byte
      form or as an IPv4-mapped IPv6 address; `None` for anything else. */
  function To4(ip: seq<byte>): (r: Option<seq<byte>>)
    ensures r.Some? ==> |r.value| == 4
    ensures |ip| == 4 ==> r == Some(ip)
    ensures r.Some? && |ip| != 4 ==> ip == V4InV6Prefix + r.value
  {
    if |ip| == 4 then Some(ip)
    else if |ip| == 16 && ip[..12] == V4InV6Prefix then Some(ip[12..])
    else None
  }

  /** `net.IP.To16`: the 16-byte form of a 4-byte address. */
  function To16(ip4: seq<byte>): (r: seq<byte>)
    requires |ip4| == 4
    ensures |r| == 16
  {
    V4InV6Prefix + ip4
  }

  /** Both spellings of an IPv4 address come back to the same four bytes. */
  lemma To4OfTo16(ip4: seq<byte>)
    requires |ip4| == 4
    ensures To4(To16(ip4)) == Some(ip4)
  {
    assert To16(ip4)[..12] == V4InV6Prefix;
    assert To16(ip4)[12..] == ip4;
  }

  /** Dotted-decimal text of a 4-byte address, as `net.IP.String` writes it. */
  function DottedQuad(b: seq<byte>): (s: string)
    requires |b| == 4
    ensures '.' in s
  {
    var s := FormatInt(b[0] as int) + "." + FormatInt(b[1] as int) + "." +
             FormatInt(b[2] as int) + "." + FormatInt(b[3] as int);
    assert s[|FormatInt(b[0] as int)|] == '.';
    s
  }

  /** Decimal text of a byte as Go writes it: digits only, with no leading
      zero except in "0" itself. */
  predicate Canonical(t: string) {
    |t| > 0 && AllDigits(t) && (t[0] == '0' ==> |t| == 1)
  }

  /** The pieces of `s` between occurrences of `sep`, in order, as Go's
      `strings.Split` gives them for a one-character separator. */
  function SplitOn(s: string, sep: char): (r: seq<string>)
    ensures |r| > 0
    decreases |s|
  {
    if |s| == 0 then [""]
    else
      var rest := SplitOn(s[1..], sep);
      if s[0] == sep then [""] + rest else [[s[0]] + rest[0]] + rest[1..]
  }

  lemma {:induction false} SplitWithoutSeparator(w: string, sep: char)
    requires sep !in w
    ensures SplitOn(w, sep) == [w]
    decreases |w|
  {
    if |w| > 0 {
      SplitWithoutSeparator(w[1..], sep);
      assert [w[0]] + w[1..] == w;
    }
  }

  lemma {:induction false} SplitAfterPiece(w: string, sep: char, t: string)
    requires sep !in w
    ensures SplitOn(w + [sep] + t, sep) == [w] + SplitOn(t, sep)
    decreases |w|
  {
    var s := w + [sep] + t;
    if |w| == 0 {
      assert s[1..] == t;
    } else {
      SplitAfterPiece(w[1..], sep, t);
      assert s[1..] == w[1..] + [sep] + t;
      assert [w[0]] + w[1..] == w;
    }
  }

  /** Only zero is written with a leading zero. */
  lemma {:induction false} FormatNatLeadingZero(n: nat)
    ensures FormatNat(n)[0] == '0' <==> n == 0
    decreases n
  {
    if n >= 10 {
      FormatNatLeadingZero(n / 10);
    } else {
      assert DigitValue(FormatNat(n)[0]) == n;
    }
  }

  lemma ByteText(v: byte)
    ensures Canonical(FormatInt(v as int)) && ParseInt(FormatInt(v as int)) == Some(v as int)
  {
    FormatNatLeadingZero(v as nat);
    FormatNatValue(v as nat);
    ParseUnsigned(FormatNat(v as nat));
  }

  lemma SplitQuad(p0: string, p1: string, p2: string, p3: string)
    requires '.' !in p0 && '.' !in p1 && '.' !in p2 && '.' !in p3
    ensures SplitOn(p0 + ['.'] + (p1 + ['.'] + (p2 + ['.'] + p3)), '.') == [p0, p1, p2, p3]
  {
    SplitWithoutSeparator(p3, '.');
    SplitAfterPiece(p2, '.', p3);
    SplitAfterPiece(p1, '.', p2 + ['.'] + p3);
    SplitAfterPiece(p0, '.', p1 + ['.'] + (p2 + ['.'] + p3));
  }

  lemma DottedQuadPieces(b: seq<byte>)
    requires |b| == 4
    ensures DottedQuad(b) == FormatInt(b[0] as int) + ['.'] + (FormatInt(b[1] as int) + ['.'] +
                             (FormatInt(b[2] as int) + ['.'] + FormatInt(b[3] as int)))
  {
  }

  /** The dotted text splits at its dots into exactly four pieces, each the
      canonical decimal text of one byte, in order. */
  lemma DottedQuadReadsBack(b: seq<byte>)
    requires |b| == 4
    ensures var parts := SplitOn(DottedQuad(b), '.');
            |parts| == 4 &&
            forall k :: 0 <= k < 4 ==> Canonical(parts[k]) && ParseInt(parts[k]) == Some(b[k] as int)
  {
    var p := [FormatInt(b[0] as int), FormatInt(b[1] as int), FormatInt(b[2] as int), FormatInt(b[3] as int)];
    forall k | 0 <= k < 4
      ensures Canonical(p[k]) && ParseInt(p[k]) == Some(b[k] as int)
    {
      ByteText(b[k]);
    }
    DottedQuadPieces(b);
    SplitQuad(p[0], p[1], p[2], p[3]);
  }

  /** `getIPFromInterface`: the first address with an IPv4 form, as text,
      or "n/a" when there is none. */
  method GetIPFromInterface(iface: Interface) returns (r: string)
    ensures (forall i :: 0 <= i < |iface.addrs| ==> To4(iface.addrs[i].ip).None?) ==> r == NotAvailable
    ensures (exists i :: 0 <= i < |iface.addrs| && To4(iface.addrs[i].ip).Some?) ==>
              exists k :: 0 <= k < |iface.addrs| && To4(iface.addrs[k].ip).Some? &&
                          r == DottedQuad(To4(iface.addrs[k].ip).value) &&
                          forall j :: 0 <= j < k ==> To4(iface.addrs[j].ip).None?
  {
    var i := 0;
    while i < |iface.addrs|
      invariant 0 <= i <= |iface.addrs|
      invariant forall j :: 0 <= j < i ==> To4(iface.addrs[j].ip).None?
    {
      match To4(iface.addrs[i].ip)
      case Some(ip4) =>
        r := DottedQuad(ip4);
        return;
      case None =>
      i := i + 1;
    }
    r := NotAvailable;
  }

  /** "n/a" is never the text of an address, so it marks the missing case
      unambiguously. */
  lemma NotAvailableIsNoAddress(b: seq<byte>)
    requires |b| == 4
    ensures DottedQuad(b) != NotAvailable
  {
    assert '.' !in NotAvailable;
  }
}

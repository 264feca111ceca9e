/** The list of Wi-Fi networks in a scan response: length-prefixed records, SSIDs as bytes. */
module ScanResponse {
  import opened Bytes
  import opened Frames

  const FN_SCAN: byte := 0xA1

  datatype Network = Network(ssid: seq<byte>, rssi: int)

  function Signed(b: byte): int {
    if b > 127 then b as int - 256 else b as int
  }

  function Unsigned(rssi: int): byte
    requires -128 <= rssi < 128
  {
    (if rssi < 0 then rssi + 256 else rssi) as byte
  }

  /** Up to `n` records from `off` on; an incomplete or empty record ends the list. */
  function Records(body: seq<byte>, off: nat, n: nat): (r: seq<Network>)
    ensures |r| <= n
    decreases n
  {
    if n == 0 || off + 2 > |body| || body[off] < 1 || off + 1 + body[off] as nat > |body| then
      []
    else
      var end := off + 1 + body[off] as nat;
      [Network(body[off + 2..end], Signed(body[off + 1]))] + Records(body, end, n - 1)
  }

  function Parsed(body: seq<byte>): seq<Network> {
    if |body| < 2 then [] else Records(body, 2, body[1] as nat)
  }

  /** `parse_scan_response`; `None` is its error. */
  method ParseScanResponse(f: Frame) returns (r: Option<seq<Network>>)
    ensures r.None? <==> f.start != START_7F || f.func != FN_SCAN
    ensures r.Some? ==> r.value == Parsed(f.payload)
  {
    if f.start != START_7F || f.func != FN_SCAN {
      return None;
    }
    var body := f.payload;
    if |body| < 2 {
      return Some([]);
    }
    var networks: seq<Network> := [];
    var off: nat, count: nat := 2, body[1] as nat;
    for i := 0 to count
      invariant networks + Records(body, off, count - i) == Records(body, 2, count)
    {
      NoneAfter(networks);
      if off + 2 > |body| {
        return Some(networks);
      }
      var recLen := body[off] as nat;
      if recLen < 1 || off + 1 + recLen > |body| {
        return Some(networks);
      }
      var network := Network(body[off + 2..off + 1 + recLen], Signed(body[off + 1]));
      OneAfter(networks, network, Records(body, off + 1 + recLen, count - i - 1));
      networks := networks + [network];
      off := off + 1 + recLen;
    }
    NoneAfter(networks);
    r := Some(networks);
  }

  lemma NoneAfter(networks: seq<Network>)
    ensures networks + [] == networks
  {
  }

  lemma OneAfter(networks: seq<Network>, network: Network, rest: seq<Network>)
    ensures networks + ([network] + rest) == (networks + [network]) + rest
  {
  }

  // ---- the encoding it inverts ----

  predicate Encodable(network: Network) {
    |network.ssid| <= 254 && -128 <= network.rssi < 128
  }

  function Record(network: Network): (r: seq<byte>)
    requires Encodable(network)
    ensures |r| == 2 + |network.ssid|
  {
    [(1 + |network.ssid|) as byte, Unsigned(network.rssi)] + network.ssid
  }

  predicate AllEncodable(networks: seq<Network>) {
    forall i :: 0 <= i < |networks| ==> Encodable(networks[i])
  }

  function Encoded(networks: seq<Network>): seq<byte>
    requires AllEncodable(networks)
  {
    if networks == [] then [] else Record(networks[0]) + Encoded(networks[1..])
  }

  lemma RecordAt(body: seq<byte>, off: nat, network: Network)
    requires Encodable(network) && off <= |body| && Record(network) <= body[off..]
    ensures var end := off + 2 + |network.ssid|;
      && end <= |body| && body[off] as nat == 1 + |network.ssid|
      && body[off + 2..end] == network.ssid && Signed(body[off + 1]) == network.rssi
  {
  }

  lemma RestOf(body: seq<byte>, off: nat, first: seq<byte>, rest: seq<byte>)
    requires off <= |body| && body[off..] == first + rest
    ensures off + |first| <= |body| && body[off + |first|..] == rest
  {
    assert body[off + |first|..] == body[off..][|first|..];
  }

  /** Any list of up to 255 networks comes back, whatever the first byte. */
  lemma RoundTrip(first: byte, networks: seq<Network>)
    requires AllEncodable(networks) && |networks| <= 255
    ensures Parsed([first, |networks| as byte] + Encoded(networks)) == networks
  {
    var body := [first, |networks| as byte] + Encoded(networks);
    assert body[2..] == Encoded(networks) + [];
    RecordsThenRest(body, 2, |networks|, networks, []);
  }

  lemma {:induction false} RecordsPrefix(body: seq<byte>, k: nat, off: nat, n: nat)
    requires k <= |body|
    ensures Records(body[..k], off, n) <= Records(body, off, n)
    decreases n
  {
    if !(n == 0 || off + 2 > k || body[off] < 1 || off + 1 + body[off] as nat > k) {
      var end := off + 1 + body[off] as nat;
      assert body[..k][off + 2..end] == body[off + 2..end];
      RecordsPrefix(body, k, end, n - 1);
    }
  }

  /** A truncated body yields the first networks of the whole. */
  lemma TruncationIsPrefix(body: seq<byte>, k: nat)
    requires k <= |body|
    ensures Parsed(body[..k]) <= Parsed(body)
  {
    if k >= 2 { RecordsPrefix(body, k, 2, body[1] as nat); }
  }

  // ---- every body ----

  /** A whole record stands in front. */
  predicate BeginsRecord(b: seq<byte>) {
    |b| >= 2 && b[0] >= 1 && 1 + b[0] as nat <= |b|
  }

  lemma RecordBegins(b: seq<byte>, off: nat)
    requires off <= |b|
    ensures BeginsRecord(b[off..]) <==> off + 2 <= |b| && b[off] >= 1 && off + 1 + b[off] as nat <= |b|
  {
  }

  lemma RecordsStep(body: seq<byte>, off: nat, n: nat, network: Network)
    requires Encodable(network) && off <= |body| && Record(network) <= body[off..] && n > 0
    ensures off + |Record(network)| <= |body|
    ensures Records(body, off, n) == [network] + Records(body, off + |Record(network)|, n - 1)
  {
    RecordAt(body, off, network);
  }

  lemma NoRecord(body: seq<byte>, off: nat, n: nat)
    requires off <= |body| && (n == 0 || !BeginsRecord(body[off..]))
    ensures Records(body, off, n) == []
  {
    RecordBegins(body, off);
  }

  lemma {:induction false} RecordsThenRest(
      body: seq<byte>, off: nat, n: nat, networks: seq<Network>, rest: seq<byte>)
    requires AllEncodable(networks) && off <= |body| && body[off..] == Encoded(networks) + rest
    requires |networks| <= n && (|networks| == n || !BeginsRecord(rest))
    ensures Records(body, off, n) == networks
    decreases |networks|
  {
    if networks == [] {
      assert [] + rest == rest;
      NoRecord(body, off, n);
    } else {
      var end := FirstRecord(body, off, networks, rest);
      RecordsStep(body, off, n, networks[0]);
      RecordsThenRest(body, end, n - 1, networks[1..], rest);
    }
  }

  lemma FirstRecord(body: seq<byte>, off: nat, networks: seq<Network>, rest: seq<byte>) returns (end: nat)
    requires AllEncodable(networks) && off <= |body| && body[off..] == Encoded(networks) + rest && networks != []
    ensures Record(networks[0]) <= body[off..] && end == off + |Record(networks[0])| && AllEncodable(networks[1..])
    ensures end <= |body| && body[end..] == Encoded(networks[1..]) + rest
  {
    var first, later := Record(networks[0]), Encoded(networks[1..]) + rest;
    Reassociate(first, Encoded(networks[1..]), rest);
    RestOf(body, off, first, later);
    end := off + |first|;
  }

  lemma {:induction false} RecordsEncode(body: seq<byte>, off: nat, n: nat) returns (rest: seq<byte>)
    requires off <= |body|
    ensures var networks := Records(body, off, n);
      && AllEncodable(networks) && body[off..] == Encoded(networks) + rest
      && (|networks| == n || !BeginsRecord(rest))
    decreases n
  {
    RecordBegins(body, off);
    if n == 0 || !BeginsRecord(body[off..]) {
      rest := body[off..];
      assert [] + rest == rest;
    } else {
      var end := off + 1 + body[off] as nat;
      rest := RecordsEncode(body, end, n - 1);
      var networks := Records(body, off, n);
      assert networks[1..] == Records(body, end, n - 1);
      RecordThere(body, off, networks[0]);
      Reassociate(Record(networks[0]), Encoded(networks[1..]), rest);
      assert body[off..] == body[off..end] + body[end..];
    }
  }

  lemma RecordThere(body: seq<byte>, off: nat, network: Network)
    requires off <= |body| && BeginsRecord(body[off..])
    requires network == Network(body[off + 2..off + 1 + body[off] as nat], Signed(body[off + 1]))
    ensures Encodable(network) && Record(network) == body[off..off + 1 + body[off] as nat]
  {
  }

  /**
   The networks are those whose whole records stand at the front of the body, up to the number that it
   announces: the list ends there, or at the first record that is empty or incomplete.
   */
  lemma ParsedIff(body: seq<byte>, networks: seq<Network>)
    requires |body| >= 2
    ensures Parsed(body) == networks <==>
      AllEncodable(networks) && |networks| <= body[1] as nat && exists rest ::
        body[2..] == Encoded(networks) + rest && (|networks| == body[1] as nat || !BeginsRecord(rest))
  {
    var rest := RecordsEncode(body, 2, body[1] as nat);
    if AllEncodable(networks) && |networks| <= body[1] as nat {
      forall tail | body[2..] == Encoded(networks) + tail
          && (|networks| == body[1] as nat || !BeginsRecord(tail))
        ensures Parsed(body) == networks
      {
        RecordsThenRest(body, 2, body[1] as nat, networks, tail);
      }
    }
  }
}

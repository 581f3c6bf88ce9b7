/** ieee80211/ieee80211_rx.c: what ieee80211_network_init reads out of a beacon or a probe response. */
module InfoElements {
  import opened Bytes
  import opened Numbers
  import opened Dot11

  // Kinds of information elements.
  const SSID: Byte := 0
  const RATES: Byte := 1
  const DS_SET: Byte := 3
  const TIM: Byte := 5
  const IBSS_SET: Byte := 6
  const ERP: Byte := 42
  const RSN: Byte := 48
  const RATES_EX: Byte := 50
  const GENERIC: Byte := 221

  const IW_ESSID_MAX_SIZE: nat := 32
  const MAX_RATES_LENGTH: nat := 12
  const MAX_RATES_EX_LENGTH: nat := 16
  const MAX_WPA_IE_LEN: nat := 64
  /** Header, time stamp, beacon interval and capabilities. */
  const FIXED_LEN: nat := 36

  /** An information element. */
  function Element(id: Byte, data: seq<Byte>): (e: seq<Byte>)
    requires |data| < 0x100
    ensures |e| == 2 + |data|
  {
    [id, ByteOf(|data|)] + data
  }

  /** What is known about a network. */
  datatype Net = Net(bssid: Mac, interval: W16, capLow: Byte, capHigh: Byte, ssid: seq<Byte>, rates: seq<Byte>,
                     ratesEx: seq<Byte>, channel: Byte, dtimPeriod: Byte, wpaIe: seq<Byte>, rsnIe: seq<Byte>,
                     hasCck: bool, hasOfdm: bool, emptyEssid: bool)

  /** The band a frame was received in, and its channel. */
  datatype Band = Band24 | Band52(channel: Byte)

  /** ieee80211_is_empty_essid: a single space, or nothing but zeros. */
  predicate IsEmptyEssid(s: seq<Byte>) {
    s == [0x20] || forall i {:trigger s[i]} :: 0 <= i < |s| ==> s[i] == 0
  }

  /** ieee80211_is_ofdm_rate. */
  predicate IsOfdm(r: Byte) {
    var b := r & 0x7f;
    b == 0x0c || b == 0x12 || b == 0x18 || b == 0x24 || b == 0x30 || b == 0x48 || b == 0x60 || b == 0x6c
  }

  predicate SomeOfdm(rs: seq<Byte>) { exists i {:trigger rs[i]} :: 0 <= i < |rs| && IsOfdm(rs[i]) }

  predicate SomeBasicOfdm(rs: seq<Byte>) {
    exists i {:trigger rs[i]} :: 0 <= i < |rs| && IsOfdm(rs[i]) && rs[i] & 0x80 != 0
  }

  /** What a list of rates says about the modulations of the network. */
  function WithRates(n: Net, rs: seq<Byte>): Net {
    n.(hasOfdm := n.hasOfdm || SomeOfdm(rs), hasCck := n.hasCck && !SomeBasicOfdm(rs))
  }

  function Front(s: seq<Byte>, n: nat): (r: seq<Byte>)
    ensures |r| == Min(|s|, n)
  {
    s[..Min(|s|, n)]
  }

  predicate IsWpa(data: seq<Byte>) {
    |data| >= 4 && data[..4] == [0x00, 0x50, 0xf2, 0x01]
  }

  /** One element, as a whole, and the byte behind it, which an empty channel element is read from; behind
      the frame that is zero here. */
  function Applied(band: Band, n: Net, el: seq<Byte>, behind: Byte): Net
    requires |el| >= 2
  {
    var id, data := el[0], el[2..];
    if id == SSID then
      if IsEmptyEssid(data) then n.(emptyEssid := true) else n.(ssid := Front(data, IW_ESSID_MAX_SIZE))
    else if id == RATES then WithRates(n.(rates := Front(data, MAX_RATES_LENGTH)), Front(data, MAX_RATES_LENGTH))
    else if id == RATES_EX
      then WithRates(n.(ratesEx := Front(data, MAX_RATES_EX_LENGTH)), Front(data, MAX_RATES_EX_LENGTH))
    else if id == DS_SET then if band.Band24? then n.(channel := (data + [behind])[0]) else n
    else if id == TIM then if |data| >= 4 then n.(dtimPeriod := data[1]) else n
    else if id == GENERIC then if IsWpa(data) then n.(wpaIe := Front(el, MAX_WPA_IE_LEN)) else n
    else if id == RSN then n.(rsnIe := Front(el, MAX_WPA_IE_LEN))
    else n
  }

  datatype Parsed = Failed | Read(net: Net)

  /** The length of the element at the front. */
  function ElementSize(s: seq<Byte>): nat
    requires |s| >= 2
  {
    2 + Value(s[1])
  }

  /** All elements, until fewer than two bytes are left; one that is longer than what is left is an error. */
  function Parse(band: Band, n: Net, s: seq<Byte>): Parsed
    decreases |s|
  {
    if |s| < 2 then Read(n)
    else if ElementSize(s) > |s| then Failed
    else Parse(band, Applied(band, n, s[..ElementSize(s)], ByteAt(s, ElementSize(s))), s[ElementSize(s)..])
  }

  /** Before the first element. */
  function Initial(band: Band, bssid: Mac, interval: W16, capLow: Byte, capHigh: Byte, channel: Byte,
                   dtimPeriod: Byte): Net {
    Net(bssid, interval, capLow, capHigh, [], [], [], if band.Band24? then channel else band.channel, dtimPeriod,
        [], [], band.Band24?, false, false)
  }

  /** A whole frame; channel and period are what the caller's structure held before. */
  function NetworkInit(band: Band, f: seq<Byte>, channel: Byte, dtimPeriod: Byte): Parsed
    requires |f| >= FIXED_LEN
  {
    Finished(band,
      Parse(band, Initial(band, f[16..22], Mk16(f[33], f[32]), f[34], f[35], channel, dtimPeriod), f[FIXED_LEN..]))
  }

  /** Behind the last element: a network without a mode is refused, one without a name marked. */
  function Finished(band: Band, p: Parsed): Parsed {
    match p
    case Failed => Failed
    case Read(n) =>
      if Modes(band, n) == {} then Failed else Read(n.(emptyEssid := n.emptyEssid || IsEmptyEssid(n.ssid)))
  }

  datatype Modulation = A | B | G

  function Modes(band: Band, n: Net): set<Modulation> {
    if band.Band52? then {A} else (if n.hasOfdm then {G} else {}) + (if n.hasCck then {B} else {})
  }

  // ---- Properties ----

  lemma WithRatesKeepsMode(n: Net, rs: seq<Byte>)
    requires n.hasCck || n.hasOfdm
    ensures WithRates(n, rs).hasCck || WithRates(n, rs).hasOfdm
  {
  }

  /** In the band of 2.4 GHz a mode is found whatever the rates are, so no network is filtered out for want of one. */
  lemma {:induction false} SomeMode(n: Net, s: seq<Byte>)
    requires n.hasCck || n.hasOfdm
    ensures Parse(Band24, n, s).Read? ==> Modes(Band24, Parse(Band24, n, s).net) != {}
    decreases |s|
  {
    if |s| < 2 {
      assert (if n.hasOfdm then G else B) in Modes(Band24, n);
    } else if ElementSize(s) <= |s| {
      var el := s[..ElementSize(s)];
      WithRatesKeepsMode(n, Front(el[2..], MAX_RATES_LENGTH));
      WithRatesKeepsMode(n, Front(el[2..], MAX_RATES_EX_LENGTH));
      SomeMode(Applied(Band24, n, el, ByteAt(s, ElementSize(s))), s[ElementSize(s)..]);
    }
  }

  /** Reading goes on behind an element that was written. */
  lemma ParseElement(band: Band, n: Net, id: Byte, data: seq<Byte>, rest: seq<Byte>)
    requires |data| < 0x100
    ensures Parse(band, n, Element(id, data) + rest)
            == Parse(band, Applied(band, n, Element(id, data), ByteAt(rest, 0)), rest)
  {
    var el := Element(id, data);
    var s := el + rest;
    ValueOf(|data|);
    assert s[1] == ByteOf(|data|);
    assert s[..|el|] == el && s[|el|..] == rest;
  }

  // ---- In place ----

  /** What one rate adds. */
  function Noted(n: Net, rate: Byte): Net {
    if !IsOfdm(rate) then n else n.(hasOfdm := true, hasCck := n.hasCck && rate & 0x80 == 0)
  }

  lemma RatesSoFar(n: Net, rs: seq<Byte>, i: nat)
    requires i < |rs|
    ensures WithRates(n, rs[..i + 1]) == Noted(WithRates(n, rs[..i]), rs[i])
  {
    OneMoreRate(rs[..i], rs[i]);
    assert rs[..i + 1] == rs[..i] + [rs[i]];
  }

  lemma OneMoreRate(a: seq<Byte>, r: Byte)
    ensures SomeOfdm(a + [r]) == (SomeOfdm(a) || IsOfdm(r))
    ensures SomeBasicOfdm(a + [r]) == (SomeBasicOfdm(a) || (IsOfdm(r) && r & 0x80 != 0))
  {
    var b := a + [r];
    assert b[|a|] == r && forall j {:trigger a[j]} :: 0 <= j < |a| ==> b[j] == a[j];
  }

  /** The body of the loop over the rates of an element. */
  method NoteRate(n: Net, rate: Byte) returns (r: Net)
    ensures r == Noted(n, rate)
  {
    r := n;
    if IsOfdm(rate) {
      r := r.(hasOfdm := true);
      if rate & 0x80 != 0 {
        r := r.(hasCck := false);
      }
    }
  }

  /** The loop over the rates of an element. */
  method ScanRates(n: Net, rs: seq<Byte>) returns (r: Net)
    ensures r == WithRates(n, rs)
  {
    r := n;
    for i := 0 to |rs|
      invariant r == WithRates(n, rs[..i])
    {
      RatesSoFar(n, rs, i);
      r := NoteRate(r, rs[i]);
    }
    assert rs[..|rs|] == rs;
  }

  /** The switch over the kinds of elements. */
  method Apply(band: Band, n: Net, el: seq<Byte>, behind: Byte) returns (r: Net)
    requires |el| >= 2
    ensures r == Applied(band, n, el, behind)
  {
    r := n;
    var data := el[2..];
    if el[0] == SSID {
      if IsEmptyEssid(data) {
        r := r.(emptyEssid := true);
      } else {
        r := r.(ssid := Front(data, IW_ESSID_MAX_SIZE));
      }
    } else if el[0] == RATES {
      r := r.(rates := Front(data, MAX_RATES_LENGTH));
      r := ScanRates(r, r.rates);
    } else if el[0] == RATES_EX {
      r := r.(ratesEx := Front(data, MAX_RATES_EX_LENGTH));
      r := ScanRates(r, r.ratesEx);
    } else if el[0] == DS_SET {
      if band.Band24? {
        r := r.(channel := (data + [behind])[0]);
      }
    } else if el[0] == TIM {
      if |data| >= 4 {
        r := r.(dtimPeriod := data[1]);
      }
    } else if el[0] == GENERIC {
      if IsWpa(data) {
        r := r.(wpaIe := Front(el, MAX_WPA_IE_LEN));
      }
    } else if el[0] == RSN {
      r := r.(rsnIe := Front(el, MAX_WPA_IE_LEN));
    }
  }

  /** ieee80211_network_init. */
  method ReadNetwork(band: Band, f: seq<Byte>, channel: Byte, dtimPeriod: Byte) returns (r: Parsed)
    requires |f| >= FIXED_LEN
    ensures r == NetworkInit(band, f, channel, dtimPeriod)
  {
    var n := Initial(band, f[16..22], Mk16(f[33], f[32]), f[34], f[35], channel, dtimPeriod);
    var left := f[FIXED_LEN..];
    ghost var goal := Parse(band, n, left);
    while |left| >= 2
      invariant Parse(band, n, left) == goal
      decreases |left|
    {
      var size := ElementSize(left);
      if size > |left| {
        return Failed;
      }
      n := Apply(band, n, left[..size], ByteAt(left, size));
      left := left[size..];
    }
    if Modes(band, n) == {} {
      return Failed;
    }
    return Read(n.(emptyEssid := n.emptyEssid || IsEmptyEssid(n.ssid)));
  }
}

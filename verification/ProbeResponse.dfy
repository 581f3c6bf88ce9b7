/** ieee80211/ieee80211_softmac.c: ieee80211_probe_resp, and reading what it prints. */
module ProbeResponse {
  import opened Bytes
  import opened Numbers
  import opened Dot11
  import opened InfoElements

  /** What the station says about its network. */
  datatype Desc = Desc(bssid: Mac, interval: W16, ssid: seq<Byte>, rates: seq<Byte>, ratesEx: seq<Byte>, channel: Byte,
                       ibss: bool, atim: W16, shortSlot: bool, privacy: bool)

  /** Lengths that the structures of the program keep to. */
  predicate ValidDesc(d: Desc) {
    |d.ssid| <= IW_ESSID_MAX_SIZE && |d.rates| <= MAX_RATES_LENGTH && |d.ratesEx| <= MAX_RATES_EX_LENGTH
  }

  /** ieee80211_is_54g. */
  predicate Is54g(d: Desc) {
    |d.ratesEx| > 0 || |d.rates| > 4
  }

  function CapLow(d: Desc): Byte {
    if d.ibss then (if d.privacy then 0x12 else 0x02) else if d.privacy then 0x10 else 0
  }

  function CapHigh(d: Desc): Byte { if d.shortSlot then 0x04 else 0 }

  /** The information elements but for the WPA element. */
  function Elements(d: Desc): seq<Byte>
    requires ValidDesc(d)
  {
    Element(SSID, d.ssid) + (Element(RATES, d.rates) + (Element(DS_SET, [d.channel]) + Optional(d)))
  }

  function AtimPart(d: Desc): seq<Byte> {
    if d.ibss then Element(IBSS_SET, [Lo8(d.atim), Hi8(d.atim)]) else []
  }

  function ErpPart(d: Desc): seq<Byte> {
    if Is54g(d) then Element(ERP, [0]) else []
  }

  function RatesExPart(d: Desc): seq<Byte>
    requires ValidDesc(d)
  {
    if |d.ratesEx| > 0 then Element(RATES_EX, d.ratesEx) else []
  }

  function Optional(d: Desc): seq<Byte>
    requires ValidDesc(d)
  {
    AtimPart(d) + (ErpPart(d) + RatesExPart(d))
  }

  /** In ad-hoc mode the pairwise suite of the WPA element is overwritten with the group suite. */
  function SentWpa(adhoc: bool, w: seq<Byte>): (r: seq<Byte>)
    requires adhoc && w != [] ==> |w| >= 18
    ensures |r| == |w|
  {
    if adhoc && w != [] then w[..14] + w[8..12] + w[18..] else w
  }

  /** The MAC header and the fixed fields; the sequence number and the time stamp are filled in later. */
  function Fixed(d: Desc, dest: Mac, own: Mac, seqNo: seq<Byte>, stamp: seq<Byte>): (h: seq<Byte>)
    requires |seqNo| == 2 && |stamp| == 8
    ensures |h| == FIXED_LEN
  {
    FixedOf(dest, own, d.bssid, seqNo, stamp, Lo8(d.interval), Hi8(d.interval), CapLow(d), CapHigh(d))
  }

  function FixedOf(dest: Mac, own: Mac, bssid: Mac, seqNo: seq<Byte>, stamp: seq<Byte>, a: Byte, b: Byte, c: Byte,
                   e: Byte): (h: seq<Byte>)
    requires |seqNo| == 2 && |stamp| == 8
    ensures |h| == FIXED_LEN
  {
    [0x50, 0, 0, 0] + dest + own + bssid + seqNo + stamp + [a, b, c, e]
  }

  /** The printed frame. */
  function Printed(d: Desc, dest: Mac, own: Mac, seqNo: seq<Byte>, stamp: seq<Byte>, wpa: seq<Byte>): seq<Byte>
    requires ValidDesc(d) && |seqNo| == 2 && |stamp| == 8
  {
    Fixed(d, dest, own, seqNo, stamp) + (Elements(d) + wpa)
  }

  /** The size that is computed beforehand: two bytes of the first element count as fixed. */
  function BeaconSize(d: Desc, wpaLen: nat): nat {
    38 + |d.ssid| + 3 + (|d.rates| + 2) + (if |d.ratesEx| > 0 then |d.ratesEx| + 2 else 0) + (if d.ibss then 4 else 0)
    + (if Is54g(d) then 3 else 0) + wpaLen
  }

  /** The frame is exactly as long as computed. */
  lemma PrintedSize(d: Desc, dest: Mac, own: Mac, seqNo: seq<Byte>, stamp: seq<Byte>, wpa: seq<Byte>)
    requires ValidDesc(d) && |seqNo| == 2 && |stamp| == 8
    ensures |Printed(d, dest, own, seqNo, stamp, wpa)| == BeaconSize(d, |wpa|)
  {
  }

  // ---- Reading it back ----

  /** A WPA or RSN element that the parser keeps whole. */
  predicate WholeElement(w: seq<Byte>) {
    2 <= |w| <= MAX_WPA_IE_LEN && |w| == 2 + Value(w[1]) && ((w[0] == GENERIC && IsWpa(w[2..])) || w[0] == RSN)
  }

  /** What the reader knows: everything that was said, and the modulations that follow from the rates; a
      network name that counts as empty is withheld. */
  function Understood(d: Desc, wpa: seq<Byte>, dtimPeriod: Byte): Net {
    var hidden := IsEmptyEssid(d.ssid);
    Net(d.bssid, d.interval, CapLow(d), CapHigh(d), if hidden then [] else d.ssid, d.rates, d.ratesEx, d.channel,
        dtimPeriod,
        if wpa != [] && wpa[0] == GENERIC then wpa else [], if wpa != [] && wpa[0] == RSN then wpa else [],
        !SomeBasicOfdm(d.rates) && !SomeBasicOfdm(d.ratesEx), SomeOfdm(d.rates) || SomeOfdm(d.ratesEx), hidden)
  }

  lemma ParseEnd(n: Net)
    ensures Parse(Band24, n, []) == Read(n)
  {
  }

  /** The WPA or RSN element at the end. */
  lemma ParseWpa(n: Net, w: seq<Byte>)
    requires w == [] || WholeElement(w)
    ensures Parse(Band24, n, w) == Read(AfterWpa(n, w))
  {
    if w != [] {
      assert w[..|w|] == w && w[|w|..] == [];
      ParseEnd(Applied(Band24, n, w, 0));
    }
  }

  /** The elements behind the channel say nothing that is kept, except for the extended rates. */
  lemma ParseOptional(n: Net, d: Desc, w: seq<Byte>)
    requires ValidDesc(d)
    ensures Parse(Band24, n, Optional(d) + w)
         == Parse(Band24, if |d.ratesEx| > 0 then WithRates(n.(ratesEx := d.ratesEx), d.ratesEx) else n, w)
  {
    ParseAtim(n, d, ErpPart(d) + (RatesExPart(d) + w));
    ParseErp(n, d, RatesExPart(d) + w);
    ParseRatesEx(n, d, w);
    Regroup(AtimPart(d), ErpPart(d), RatesExPart(d), w);
  }

  lemma Regroup(a: seq<Byte>, b: seq<Byte>, c: seq<Byte>, w: seq<Byte>)
    ensures (a + (b + c)) + w == a + (b + (c + w))
  {
  }

  lemma ParseAtim(n: Net, d: Desc, rest: seq<Byte>)
    ensures Parse(Band24, n, AtimPart(d) + rest) == Parse(Band24, n, rest)
  {
    if d.ibss {
      ParseElement(Band24, n, IBSS_SET, [Lo8(d.atim), Hi8(d.atim)], rest);
    } else {
      assert AtimPart(d) + rest == rest;
    }
  }

  lemma ParseErp(n: Net, d: Desc, rest: seq<Byte>)
    ensures Parse(Band24, n, ErpPart(d) + rest) == Parse(Band24, n, rest)
  {
    if Is54g(d) {
      ParseElement(Band24, n, ERP, [0], rest);
    } else {
      assert ErpPart(d) + rest == rest;
    }
  }

  lemma ParseRatesEx(n: Net, d: Desc, rest: seq<Byte>)
    requires ValidDesc(d)
    ensures Parse(Band24, n, RatesExPart(d) + rest)
         == Parse(Band24, if |d.ratesEx| > 0 then WithRates(n.(ratesEx := d.ratesEx), d.ratesEx) else n, rest)
  {
    if |d.ratesEx| > 0 {
      ParseElement(Band24, n, RATES_EX, d.ratesEx, rest);
      WholeFront(d.ratesEx, MAX_RATES_EX_LENGTH);
    } else {
      assert RatesExPart(d) + rest == rest;
    }
  }

  lemma WholeFront(s: seq<Byte>, n: nat)
    requires |s| <= n
    ensures Front(s, n) == s
  {
  }

  /** The first three elements. */
  lemma ParseMain(n: Net, d: Desc, rest: seq<Byte>)
    requires ValidDesc(d)
    ensures Parse(Band24, n, Element(SSID, d.ssid) + (Element(RATES, d.rates) + (Element(DS_SET, [d.channel]) + rest)))
         == Parse(Band24, AfterMain(n, d), rest)
  {
    var r2 := Element(DS_SET, [d.channel]) + rest;
    var r1 := Element(RATES, d.rates) + r2;
    var n1 := AfterSsid(n, d);
    var n2 := WithRates(n1.(rates := d.rates), d.rates);
    ParseElement(Band24, n, SSID, d.ssid, r1);
    WholeFront(d.ssid, IW_ESSID_MAX_SIZE);
    ParseElement(Band24, n1, RATES, d.rates, r2);
    WholeFront(d.rates, MAX_RATES_LENGTH);
    ParseElement(Band24, n2, DS_SET, [d.channel], rest);
  }

  function AfterSsid(n: Net, d: Desc): Net {
    if IsEmptyEssid(d.ssid) then n.(emptyEssid := true) else n.(ssid := d.ssid)
  }

  function AfterMain(n: Net, d: Desc): Net {
    WithRates(AfterSsid(n, d).(rates := d.rates), d.rates).(channel := d.channel)
  }

  /** The fixed fields of a frame. */
  lemma FixedFields(dest: Mac, own: Mac, bssid: Mac, seqNo: seq<Byte>, stamp: seq<Byte>, a: Byte, b: Byte, c: Byte,
                    e: Byte, rest: seq<Byte>)
    requires |seqNo| == 2 && |stamp| == 8
    ensures var f := FixedOf(dest, own, bssid, seqNo, stamp, a, b, c, e) + rest;
            f[16..22] == bssid && f[FIXED_LEN..] == rest && f[32] == a && f[33] == b && f[34] == c && f[35] == e
  {
  }

  function Start(d: Desc, channel: Byte, dtimPeriod: Byte): Net {
    Initial(Band24, d.bssid, d.interval, CapLow(d), CapHigh(d), channel, dtimPeriod)
  }

  function AfterWpa(n: Net, w: seq<Byte>): Net {
    if w == [] then n else if w[0] == GENERIC then n.(wpaIe := w) else n.(rsnIe := w)
  }

  function Layered(d: Desc, w: seq<Byte>): seq<Byte>
    requires ValidDesc(d)
  {
    Element(SSID, d.ssid) + (Element(RATES, d.rates) + (Element(DS_SET, [d.channel]) + (Optional(d) + w)))
  }

  lemma RegroupMore(a: seq<Byte>, b: seq<Byte>, c: seq<Byte>, e: seq<Byte>, w: seq<Byte>)
    ensures (a + (b + (c + e))) + w == a + (b + (c + (e + w)))
  {
  }

  /** All elements of the printed frame. */
  lemma BodyReadsBack(n: Net, d: Desc, wpa: seq<Byte>)
    requires ValidDesc(d) && (wpa == [] || WholeElement(wpa))
    ensures Elements(d) + wpa == Layered(d, wpa) &&
            Parse(Band24, n, Layered(d, wpa)) == Read(AfterWpa(AfterAll(n, d), wpa))
  {
    RegroupMore(Element(SSID, d.ssid), Element(RATES, d.rates), Element(DS_SET, [d.channel]), Optional(d), wpa);
    ParseMain(n, d, Optional(d) + wpa);
    ParseOptional(AfterMain(n, d), d, wpa);
    ParseWpa(AfterAll(n, d), wpa);
  }

  /** What all elements together add. */
  lemma AfterAllIs(n: Net, d: Desc)
    requires n.ssid == [] && n.ratesEx == [] && n.hasCck && !n.hasOfdm && !n.emptyEssid
    ensures AfterAll(n, d)
            == n.(ssid := if IsEmptyEssid(d.ssid) then [] else d.ssid, rates := d.rates, ratesEx := d.ratesEx,
                                 channel := d.channel, emptyEssid := IsEmptyEssid(d.ssid),
                                 hasOfdm := SomeOfdm(d.rates) || SomeOfdm(d.ratesEx),
                                 hasCck := !SomeBasicOfdm(d.rates) && !SomeBasicOfdm(d.ratesEx))
  {
    if |d.ratesEx| == 0 {
      assert d.ratesEx == [] && !SomeOfdm(d.ratesEx) && !SomeBasicOfdm(d.ratesEx);
    }
  }

  lemma FinallyUnderstood(d: Desc, wpa: seq<Byte>, channel: Byte, dtimPeriod: Byte)
    requires wpa == [] || WholeElement(wpa)
    ensures AfterWpa(AfterAll(Start(d, channel, dtimPeriod), d), wpa) == Understood(d, wpa, dtimPeriod)
  {
    AfterAllIs(Start(d, channel, dtimPeriod), d);
  }

  lemma InitOf(d: Desc, f: seq<Byte>, body: seq<Byte>, channel: Byte, dtimPeriod: Byte)
    requires |f| >= FIXED_LEN && f[16..22] == d.bssid && f[FIXED_LEN..] == body && Mk16(f[33], f[32]) == d.interval
    requires f[34] == CapLow(d) && f[35] == CapHigh(d)
    ensures NetworkInit(Band24, f, channel, dtimPeriod)
            == InfoElements.Finished(Band24, Parse(Band24, Start(d, channel, dtimPeriod), body))
  {
  }

  /** Reading a printed probe response gives back what was printed: the identity of the network, its rates,
      channel, interval and security element, and its name unless that counts as hidden. */
  lemma ReadsBack(d: Desc, dest: Mac, own: Mac, seqNo: seq<Byte>, stamp: seq<Byte>, wpa: seq<Byte>, channel: Byte,
                  dtimPeriod: Byte)
    requires ValidDesc(d) && |seqNo| == 2 && |stamp| == 8 && (wpa == [] || WholeElement(wpa))
    ensures NetworkInit(Band24, Printed(d, dest, own, seqNo, stamp, wpa), channel, dtimPeriod)
            == Read(Understood(d, wpa, dtimPeriod))
  {
    var f := Printed(d, dest, own, seqNo, stamp, wpa);
    PrintedFields(d, dest, own, seqNo, stamp, wpa, f);
    InitOf(d, f, Elements(d) + wpa, channel, dtimPeriod);
    BodyUnderstood(d, wpa, Elements(d) + wpa, channel, dtimPeriod);
  }

  /** The fixed fields of the printed frame, and its elements. */
  lemma PrintedFields(d: Desc, dest: Mac, own: Mac, seqNo: seq<Byte>, stamp: seq<Byte>, wpa: seq<Byte>, f: seq<Byte>)
    requires ValidDesc(d) && |seqNo| == 2 && |stamp| == 8 && f == Printed(d, dest, own, seqNo, stamp, wpa)
    ensures |f| >= FIXED_LEN && f[16..22] == d.bssid && f[FIXED_LEN..] == Elements(d) + wpa
    ensures Mk16(f[33], f[32]) == d.interval && f[34] == CapLow(d) && f[35] == CapHigh(d)
  {
    FixedFields(dest, own, d.bssid, seqNo, stamp, Lo8(d.interval), Hi8(d.interval), CapLow(d), CapHigh(d),
                Elements(d) + wpa);
    Mk16Of(d.interval);
  }

  lemma BodyUnderstood(d: Desc, wpa: seq<Byte>, body: seq<Byte>, channel: Byte, dtimPeriod: Byte)
    requires ValidDesc(d) && (wpa == [] || WholeElement(wpa)) && body == Elements(d) + wpa
    ensures InfoElements.Finished(Band24, Parse(Band24, Start(d, channel, dtimPeriod), body))
            == Read(Understood(d, wpa, dtimPeriod))
  {
    var n := Start(d, channel, dtimPeriod);
    BodyReadsBack(n, d, wpa);
    SomeMode(n, body);
    FinallyUnderstood(d, wpa, channel, dtimPeriod);
    Named(Understood(d, wpa, dtimPeriod));
  }

  lemma Named(n: Net)
    requires Modes(Band24, n) != {} && (n.emptyEssid <==> IsEmptyEssid(n.ssid))
    ensures InfoElements.Finished(Band24, Read(n)) == Read(n)
  {
  }

  function AfterAll(n: Net, d: Desc): Net {
    var m := AfterMain(n, d);
    if |d.ratesEx| > 0 then WithRates(m.(ratesEx := d.ratesEx), d.ratesEx) else m
  }

  /** The name survives exactly if it does not count as hidden, or is empty anyway. */
  lemma NameKeptIff(d: Desc, wpa: seq<Byte>, dtimPeriod: Byte)
    ensures Understood(d, wpa, dtimPeriod).ssid == d.ssid <==> !IsEmptyEssid(d.ssid) || d.ssid == []
  {
  }

  /** The security element that is sent is again a whole one; it is the station's own exactly if the mode is
      not ad-hoc, there is none, or its two suites are the same. */
  lemma SentWpaIs(adhoc: bool, w: seq<Byte>)
    requires (w == [] || WholeElement(w)) && (adhoc && w != [] ==> |w| >= 18)
    ensures SentWpa(adhoc, w) == [] || WholeElement(SentWpa(adhoc, w))
    ensures SentWpa(adhoc, w) == w <==> !adhoc || w == [] || w[14..18] == w[8..12]
  {
    if adhoc && w != [] {
      var s := SentWpa(adhoc, w);
      assert s[14..18] == w[8..12] && w == w[..14] + w[14..18] + w[18..];
      assert s[0] == w[0] && s[1] == w[1] && s[2..][..4] == w[2..][..4];
    }
  }

  // ---- In place ----

  /** Writes data at tag and steps behind it. */
  method Append(buf: array<Byte>, tag: nat, data: seq<Byte>) returns (next: nat)
    requires tag + |data| <= buf.Length
    modifies buf
    ensures next == tag + |data| && buf[..next] == old(buf[..tag]) + data
  {
    forall i | 0 <= i < |data| {
      buf[tag + i] := data[i];
    }
    next := tag + |data|;
  }

  method AppendElement(buf: array<Byte>, tag: nat, id: Byte, data: seq<Byte>) returns (next: nat)
    requires |data| < 0x100 && tag + 2 + |data| <= buf.Length
    modifies buf
    ensures next == tag + 2 + |data| && buf[..next] == old(buf[..tag]) + Element(id, data)
  {
    next := Append(buf, tag, Element(id, data));
  }

  /** Header and fixed fields; sequence number and time stamp stay what the new buffer happens to hold. */
  method WriteFixed(buf: array<Byte>, d: Desc, dest: Mac, own: Mac) returns (tag: nat, ghost seqNo: seq<Byte>,
                    ghost stamp: seq<Byte>)
    requires buf.Length >= FIXED_LEN
    modifies buf
    ensures tag == FIXED_LEN && |seqNo| == 2 && |stamp| == 8 && buf[..tag] == Fixed(d, dest, own, seqNo, stamp)
  {
    tag := Append(buf, 0, [0x50, 0, 0, 0] + dest + own + d.bssid);
    seqNo, stamp := buf[22..24], buf[24..32];
    assert buf[..32] == buf[..22] + seqNo + stamp;
    tag := Append(buf, 32, [Lo8(d.interval), Hi8(d.interval), CapLow(d), CapHigh(d)]);
  }

  /** The elements that are always there. */
  method WriteMain(buf: array<Byte>, tag: nat, d: Desc) returns (next: nat)
    requires ValidDesc(d) && tag + 2 + |d.ssid| + 2 + |d.rates| + 3 <= buf.Length
    modifies buf
    ensures next == tag + 2 + |d.ssid| + 2 + |d.rates| + 3
    ensures buf[..next] == old(buf[..tag]) + Element(SSID, d.ssid) + Element(RATES, d.rates) + Element(DS_SET,
            [d.channel])
  {
    next := AppendElement(buf, tag, SSID, d.ssid);
    next := AppendElement(buf, next, RATES, d.rates);
    next := AppendElement(buf, next, DS_SET, [d.channel]);
  }

  /** The elements that are there for an ad-hoc network or the higher rates. */
  method WriteOptional(buf: array<Byte>, tag: nat, d: Desc) returns (next: nat)
    requires ValidDesc(d) && tag + |Optional(d)| <= buf.Length
    modifies buf
    ensures next == tag + |Optional(d)| && buf[..next] == old(buf[..tag]) + AtimPart(d) + ErpPart(d) + RatesExPart(d)
  {
    next := tag;
    if d.ibss {
      next := AppendElement(buf, next, IBSS_SET, [Lo8(d.atim), Hi8(d.atim)]);
    }
    if Is54g(d) {
      next := AppendElement(buf, next, ERP, [0]);
    }
    if |d.ratesEx| > 0 {
      next := AppendElement(buf, next, RATES_EX, d.ratesEx);
    }
  }

  /** The WPA element, after the station's own copy was changed in ad-hoc mode. */
  method WriteWpa(buf: array<Byte>, tag: nat, wpaIe: array<Byte>, adhoc: bool) returns (next: nat)
    requires tag + wpaIe.Length <= buf.Length && buf != wpaIe && (adhoc && wpaIe.Length > 0 ==> wpaIe.Length >= 18)
    modifies buf, wpaIe
    ensures wpaIe[..] == SentWpa(adhoc, old(wpaIe[..]))
    ensures next == tag + wpaIe.Length && buf[..next] == old(buf[..tag]) + wpaIe[..]
  {
    if wpaIe.Length > 0 {
      if adhoc {
        ghost var w := wpaIe[..];
        wpaIe[14], wpaIe[15], wpaIe[16], wpaIe[17] := wpaIe[8], wpaIe[9], wpaIe[10], wpaIe[11];
        assert wpaIe[..] == w[..14] + w[8..12] + w[18..];
      }
    }
    next := Append(buf, tag, wpaIe[..]);
  }

  method WriteElements(buf: array<Byte>, tag: nat, d: Desc) returns (next: nat)
    requires ValidDesc(d) && tag + |Elements(d)| <= buf.Length
    modifies buf
    ensures next == tag + |Elements(d)| && buf[..next] == old(buf[..tag]) + Elements(d)
  {
    next := WriteMain(buf, tag, d);
    next := WriteOptional(buf, next, d);
    Flattened(old(buf[..tag]), Element(SSID, d.ssid), Element(RATES, d.rates), Element(DS_SET, [d.channel]),
              AtimPart(d), ErpPart(d), RatesExPart(d));
  }

  lemma Flattened(h: seq<Byte>, a: seq<Byte>, b: seq<Byte>, c: seq<Byte>, e: seq<Byte>, f: seq<Byte>, g: seq<Byte>)
    ensures h + a + b + c + e + f + g == h + (a + (b + (c + (e + (f + g)))))
  {
  }

  /** ieee80211_probe_resp: the buffer is filled exactly. */
  method ProbeResp(d: Desc, dest: Mac, own: Mac, wpaIe: array<Byte>, adhoc: bool)
    returns (buf: array<Byte>, ghost seqNo: seq<Byte>, ghost stamp: seq<Byte>)
    requires ValidDesc(d) && (adhoc && wpaIe.Length > 0 ==> wpaIe.Length >= 18)
    modifies wpaIe
    ensures fresh(buf) && |seqNo| == 2 && |stamp| == 8 && wpaIe[..] == SentWpa(adhoc, old(wpaIe[..]))
    ensures buf.Length == BeaconSize(d, wpaIe.Length) && buf[..] == Printed(d, dest, own, seqNo, stamp, wpaIe[..])
  {
    PrintedSize(d, dest, own, Zeros(2), Zeros(8), wpaIe[..]);
    buf := new Byte[BeaconSize(d, wpaIe.Length)];
    seqNo, stamp := PrintInto(buf, d, dest, own, wpaIe, adhoc);
  }

  method PrintInto(buf: array<Byte>, d: Desc, dest: Mac, own: Mac, wpaIe: array<Byte>, adhoc: bool)
    returns (ghost seqNo: seq<Byte>, ghost stamp: seq<Byte>)
    requires ValidDesc(d) && (adhoc && wpaIe.Length > 0 ==> wpaIe.Length >= 18)
    requires buf.Length == FIXED_LEN + |Elements(d)| + wpaIe.Length && buf != wpaIe
    modifies buf, wpaIe
    ensures |seqNo| == 2 && |stamp| == 8 && wpaIe[..] == SentWpa(adhoc, old(wpaIe[..]))
    ensures buf[..] == Printed(d, dest, own, seqNo, stamp, wpaIe[..])
  {
    var tag: nat;
    tag, seqNo, stamp := WriteFixed(buf, d, dest, own);
    tag := WriteElements(buf, tag, d);
    tag := WriteWpa(buf, tag, wpaIe, adhoc);
    Together(buf[..tag], Fixed(d, dest, own, seqNo, stamp), Elements(d), wpaIe[..]);
    assert buf[..tag] == buf[..];
  }

  lemma Together(f: seq<Byte>, h: seq<Byte>, e: seq<Byte>, w: seq<Byte>)
    requires f == h + e + w
    ensures f == h + (e + w)
  {
  }
}

/** The dashboard: the search-and-status filter over the device list, the
    registration of a submitted draft, and the four summary counters. */
module Dashboard {
  import opened Wrappers
  import opened Seqs
  import opened Text
  import opened Base64
  import opened MacAddress
  import opened QrHash
  import opened Devices

  // ---------------------------------------------------------------- filtering

  /** `'all' | 'online' | 'offline'` */
  datatype StatusFilter = AllStatuses | OnlyStatus(status: Status)

  /** The search box matches a device when the lower-cased term occurs in
      the lower-cased name, MAC address or location. The empty term matches
      every device; a term longer than all three fields matches none. */
  function MatchesSearch(d: Device, term: string): (b: bool)
    ensures |term| == 0 ==> b
    ensures b ==> |term| <= |d.name| || |term| <= |d.macAddress| || |term| <= |d.location|
  {
    var t := ToLower(term);
    Includes(ToLower(d.name), t) || Includes(ToLower(d.macAddress), t)
    || Includes(ToLower(d.location), t)
  }

  predicate MatchesStatus(d: Device, filter: StatusFilter)
  {
    match filter
    case AllStatuses => true
    case OnlyStatus(s) => d.status == s
  }

  /** The list the filter effect shows: a search pass, then a status pass
      unless the filter is `'all'`. The result keeps the devices' order. */
  function FilterDevices(devices: seq<Device>, term: string, filter: StatusFilter): (r: seq<Device>)
    ensures IsSubsequence(r, devices)
    ensures forall i :: 0 <= i < |r| ==> MatchesSearch(r[i], term) && MatchesStatus(r[i], filter)
  {
    var bySearch := Keep(devices, d => MatchesSearch(d, term));
    KeepSubsequence(devices, d => MatchesSearch(d, term));
    match filter
    case AllStatuses => bySearch
    case OnlyStatus(s) =>
      KeepSubsequence(bySearch, (d: Device) => d.status == s);
      KeepMembership(bySearch, (d: Device) => d.status == s);
      SubsequenceTransitive(Keep(bySearch, (d: Device) => d.status == s), bySearch, devices);
      Keep(bySearch, (d: Device) => d.status == s)
  }

  /** The two passes are one filter by the conjunction of both tests. */
  lemma FilterIsOnePass(devices: seq<Device>, term: string, filter: StatusFilter)
    ensures FilterDevices(devices, term, filter)
      == Keep(devices, d => MatchesSearch(d, term) && MatchesStatus(d, filter))
  {
    var both := d => MatchesSearch(d, term) && MatchesStatus(d, filter);
    match filter
    case AllStatuses =>
      KeepCongruent(devices, d => MatchesSearch(d, term), both);
    case OnlyStatus(s) =>
      KeepFuse(devices, d => MatchesSearch(d, term), (d: Device) => d.status == s, both);
  }

  /** A device is shown exactly when it is in the list and passes both tests,
      and then as many times as it occurs in the list. */
  lemma FilterContents(devices: seq<Device>, term: string, filter: StatusFilter)
    ensures forall d :: (d in FilterDevices(devices, term, filter)
                        <==> d in devices && MatchesSearch(d, term) && MatchesStatus(d, filter))
    ensures forall d :: (multiset(FilterDevices(devices, term, filter))[d]
                        == if MatchesSearch(d, term) && MatchesStatus(d, filter)
                           then multiset(devices)[d] else 0)
  {
    FilterIsOnePass(devices, term, filter);
    var both := d => MatchesSearch(d, term) && MatchesStatus(d, filter);
    KeepMembership(devices, both);
    KeepMultiplicity(devices, both);
  }

  /** With an empty search box and `'all'`, every device is shown in order. */
  lemma EmptySearchShowsAll(devices: seq<Device>)
    ensures FilterDevices(devices, "", AllStatuses) == devices
  {
    forall i | 0 <= i < |devices|
      ensures MatchesSearch(devices[i], "")
    {
      IncludesEmpty(ToLower(devices[i].name));
    }
    KeepAll(devices, d => MatchesSearch(d, ""));
  }

  /** Applying the same filter to its own output changes nothing. */
  lemma FilterIdempotent(devices: seq<Device>, term: string, filter: StatusFilter)
    ensures FilterDevices(FilterDevices(devices, term, filter), term, filter)
      == FilterDevices(devices, term, filter)
  {
    var r := FilterDevices(devices, term, filter);
    FilterIsOnePass(r, term, filter);
    KeepAll(r, d => MatchesSearch(d, term) && MatchesStatus(d, filter));
  }

  /** The online view and the offline view split the `'all'` view: together
      they hold every shown device exactly as often. */
  lemma StatusViewsPartition(devices: seq<Device>, term: string)
    ensures multiset(FilterDevices(devices, term, OnlyStatus(Online)))
      + multiset(FilterDevices(devices, term, OnlyStatus(Offline)))
      == multiset(FilterDevices(devices, term, AllStatuses))
    ensures |FilterDevices(devices, term, OnlyStatus(Online))|
      + |FilterDevices(devices, term, OnlyStatus(Offline))|
      == |FilterDevices(devices, term, AllStatuses)|
  {
    var bySearch := Keep(devices, d => MatchesSearch(d, term));
    KeepPartition(bySearch, (d: Device) => d.status == Online, (d: Device) => d.status == Offline);
  }

  lemma LowerOfUpper(s: string)
    ensures ToLower(ToUpper(s)) == ToLower(s)
  {
  }

  /** The search ignores the case of ASCII letters in the term. */
  lemma SearchIgnoresCase(devices: seq<Device>, term: string, filter: StatusFilter)
    ensures FilterDevices(devices, ToUpper(term), filter) == FilterDevices(devices, term, filter)
  {
    LowerOfUpper(term);
    KeepCongruent(devices, d => MatchesSearch(d, ToUpper(term)), d => MatchesSearch(d, term));
  }

  /** Searching "recep" finds a device located in "Recepção", whatever its
      name and address. */
  lemma SearchFindsLocation(d: Device)
    requires d.location == "Recepção"
    ensures MatchesSearch(d, "recep")
  {
    assert ToLower("recep") == "recep";
    assert ToLower(d.location)[0..5] == "recep";
    assert OccursAt(ToLower(d.location), "recep", 0);
  }

  // ---------------------------------------------------------------- registration

  /** `handleAddDevice`: the draft becomes a device whose id is the clock
      reading in decimal, whose `qrHash` is derived from its MAC address and
      whose last activity is now, appended after the existing devices. The
      derivation throws for a MAC with a character above U+00FF, and then
      the list is not updated. */
  function AddDevice(devices: seq<Device>, draft: DeviceDraft, clock: int, now: int)
    : (r: Result<seq<Device>, DomException>)
    ensures r.Success? <==> IsLatin1(draft.macAddress)
    ensures r.Success? ==> |r.value| == |devices| + 1 && r.value[..|devices|] == devices
    ensures r.Success? ==>
      var d := r.value[|devices|];
      d.id == IntToDecimal(clock) && d.lastActivity == now
      && Success(d.qrHash) == DeriveQrHash(draft.macAddress)
      && d.name == draft.name && d.model == draft.model && d.macAddress == draft.macAddress
      && d.location == draft.location && d.status == draft.status
      && d.manufacturer == draft.manufacturer && d.deviceType == draft.deviceType
      && d.description == draft.description
  {
    match DeriveQrHash(draft.macAddress)
    case Failure(e) => Failure(e)
    case Success(hash) =>
      var d := FromDraft(draft, IntToDecimal(clock), hash, now);
      assert (devices + [d])[..|devices|] == devices;
      Success(devices + [d])
  }

  /** Registration keeps every hash derived from its address. */
  lemma AddDevicePreservesHashes(devices: seq<Device>, draft: DeviceDraft, clock: int, now: int)
    requires HashesDerived(devices)
    requires AddDevice(devices, draft, clock, now).Success?
    ensures HashesDerived(AddDevice(devices, draft, clock, now).value)
  {
    var r := AddDevice(devices, draft, clock, now).value;
    forall i | 0 <= i < |r|
      ensures DeriveQrHash(r[i].macAddress) == Success(r[i].qrHash)
    {
      if i < |devices| {
        assert r[i] == r[..|devices|][i];
      }
    }
  }

  /** A draft the form accepted always registers, and its code is the
      base64 of the address's first nine characters: the three vendor octets
      and the separator after each. */
  lemma AddAcceptedDraft(devices: seq<Device>, draft: DeviceDraft, clock: int, now: int)
    requires ValidateMacAddress(draft.macAddress)
    ensures IsLatin1(draft.macAddress[..9])
    ensures AddDevice(devices, draft, clock, now).Success?
    ensures AddDevice(devices, draft, clock, now).value[|devices|].qrHash
      == Encode(Latin1Bytes(draft.macAddress[..9]))
  {
    ValidAddressIsMacText(draft.macAddress);
    QrHashIsEncodedPrefix(draft.macAddress);
  }

  // ---------------------------------------------------------------- statistics

  /** The four counters above the device list. */
  datatype Stats = Stats(total: nat, online: nat, offline: nat, active: nat)

  /** `daysSinceActivity <= 7`, with the elapsed milliseconds divided by the
      length of a day exactly (the clock reading is a parameter). */
  predicate ActiveWithinWeek(d: Device, now: int)
  {
    (now - d.lastActivity) as real / MillisPerDay as real <= 7.0
  }

  /** Exact division compared with seven days is an integer comparison of
      milliseconds; a last activity in the future counts as active. */
  lemma ActiveWithinWeekIff(d: Device, now: int)
    ensures ActiveWithinWeek(d, now) <==> now - d.lastActivity <= 7 * MillisPerDay
  {
    var x := (now - d.lastActivity) as real;
    var m := MillisPerDay as real;
    assert x / m * m == x;
  }

  /** With an empty search box, a status view keeps exactly the devices of
      that status. */
  lemma StatusViewOfAll(devices: seq<Device>, status: Status)
    ensures FilterDevices(devices, "", OnlyStatus(status)) == Keep(devices, (d: Device) => d.status == status)
  {
    EmptySearchShowsAll(devices);
  }

  /** The counters: `online` and `offline` are the sizes of the online and
      offline views of the unsearched list, and together make the total. */
  function CountStats(devices: seq<Device>, now: int): (s: Stats)
    ensures s.total == |devices|
    ensures s.online == |FilterDevices(devices, "", OnlyStatus(Online))|
    ensures s.offline == |FilterDevices(devices, "", OnlyStatus(Offline))|
    ensures s.online + s.offline == s.total
    ensures s.active <= s.total
  {
    StatusViewOfAll(devices, Online);
    StatusViewOfAll(devices, Offline);
    KeepPartition(devices, (d: Device) => d.status == Online, (d: Device) => d.status == Offline);
    Stats(|devices|,
      |Keep(devices, (d: Device) => d.status == Online)|,
      |Keep(devices, (d: Device) => d.status == Offline)|,
      |Keep(devices, d => ActiveWithinWeek(d, now))|)
  }

  /** The active counter counts exactly the devices whose last activity is
      at most seven days of milliseconds before now. */
  lemma ActiveCountIsWeekWindow(devices: seq<Device>, now: int)
    ensures CountStats(devices, now).active
      == |Keep(devices, (d: Device) => now - d.lastActivity <= 7 * MillisPerDay)|
  {
    forall d: Device
      ensures ActiveWithinWeek(d, now) == (now - d.lastActivity <= 7 * MillisPerDay)
    {
      ActiveWithinWeekIff(d, now);
    }
    KeepCongruent(devices, d => ActiveWithinWeek(d, now),
      (d: Device) => now - d.lastActivity <= 7 * MillisPerDay);
  }

  /** Registering one device raises the total by one, exactly the counter
      of its status by one, and the active count by one (it was active just now). */
  lemma StatsAfterAdd(devices: seq<Device>, draft: DeviceDraft, clock: int, now: int)
    requires AddDevice(devices, draft, clock, now).Success?
    ensures var before := CountStats(devices, now);
      var after := CountStats(AddDevice(devices, draft, clock, now).value, now);
      after.total == before.total + 1
      && after.online == before.online + (if draft.status == Online then 1 else 0)
      && after.offline == before.offline + (if draft.status == Offline then 1 else 0)
      && after.active == before.active + 1
  {
    var r := AddDevice(devices, draft, clock, now).value;
    var d := r[|devices|];
    assert r == devices + [d];
    KeepAppend(devices, [d], (x: Device) => x.status == Online);
    KeepAppend(devices, [d], (x: Device) => x.status == Offline);
    KeepAppend(devices, [d], x => ActiveWithinWeek(x, now));
    ActiveWithinWeekIff(d, now);
  }
}

/**
 The database of known networks. Each status message carries a scan; the strongest entry of every
 SSID is merged into the database and shown to the rest of the mesh.
 */
module WifiDb {
  class MeshDevice {
    const SSID: string
    const Name: string
    const Level: int
    var PSK: string

    constructor (ssid: string, name: string, level: int, psk: string)
      ensures SSID == ssid && Name == name && Level == level && PSK == psk
    {
      SSID, Name, Level, PSK := ssid, name, level, psk;
    }
  }

  /** A persisted entry. */
  class MeshInfo {
    const SSID: string
    const Name: string
    var PSK: string

    constructor (ssid: string, psk: string, name: string)
      ensures SSID == ssid && PSK == psk && Name == name
    {
      SSID, PSK, Name := ssid, psk, name;
    }
  }

  // ----- The winner of a scan

  /** Index of the entry a scan keeps for an SSID, or -1: an entry replaces a weaker one only. */
  function Winner(scan: seq<MeshDevice>, ssid: string): (w: int)
    ensures w == -1 || (0 <= w < |scan| && scan[w].SSID == ssid)
  {
    if scan == [] then -1
    else
      var n := |scan| - 1;
      var w := Winner(scan[..n], ssid);
      if scan[n].SSID == ssid && (w == -1 || scan[w].Level < scan[n].Level) then n else w
  }

  /** The winner is the first entry of maximal level, and there is one if the SSID occurs. */
  lemma {:induction false} WinnerIsFirstStrongest(scan: seq<MeshDevice>, ssid: string)
    ensures var w := Winner(scan, ssid);
            && (w == -1 <==> forall i :: 0 <= i < |scan| ==> scan[i].SSID != ssid)
            && (w != -1 ==> forall i :: 0 <= i < |scan| && scan[i].SSID == ssid ==>
                              scan[i].Level <= scan[w].Level && (i < w ==> scan[i].Level < scan[w].Level))
    decreases |scan|
  {
    if scan != [] {
      var init := scan[..|scan| - 1];
      WinnerIsFirstStrongest(init, ssid);
      assert forall i :: 0 <= i < |init| ==> scan[i] == init[i];
    }
  }

  // ----- The merge, on values

  type Psks = map<string, string>

  /** The database after one entry: a reported key is stored, a missing one changes nothing. */
  function MergedOne(db: Psks, ssid: string, psk: string): Psks {
    if psk == "" then db else db[ssid := psk]
  }

  /** The key the entry itself ends with. */
  function Shown(db: Psks, ssid: string, psk: string): string {
    if psk == "" && ssid in db then db[ssid] else psk
  }

  /** The database after a whole scan, given the keys its winners report. */
  function Merged(db: Psks, reported: Psks): Psks {
    map k | k in db.Keys + reported.Keys && (k in db || reported[k] != "") ::
      if k in reported && reported[k] != "" then reported[k] else db[k]
  }

  /** Whatever is visible ends with the database's key, and with none if the database has none. */
  lemma ShownIsStored(db: Psks, reported: Psks, ssid: string)
    requires ssid in reported
    ensures var after := Merged(db, reported);
            Shown(db, ssid, reported[ssid]) == if ssid in after then after[ssid] else ""
  {
  }

  lemma MergedNext(db: Psks, reported: Psks, ssid: string, psk: string)
    requires ssid !in reported
    ensures MergedOne(Merged(db, reported), ssid, psk) == Merged(db, reported[ssid := psk])
    ensures ssid in Merged(db, reported) <==> ssid in db
    ensures ssid in db ==> Merged(db, reported)[ssid] == db[ssid]
  {
  }

  // ----- The merge, in place

  class Wifi {
    var MeshInfos: map<string, MeshInfo>
    var Scan: map<string, MeshDevice>
    var VisibleDevices: map<string, MeshDevice>
    var NeedsSave: bool

    constructor ()
      ensures Valid() && Db() == map[] && !NeedsSave && MeshInfos == map[]
    {
      MeshInfos, Scan, VisibleDevices, NeedsSave := map[], map[], map[], false;
    }

    /** Entries sit under their own SSID and never have an empty key. */
    ghost predicate Valid()
      reads this`MeshInfos, MeshInfos.Values
    {
      forall k :: k in MeshInfos ==> MeshInfos[k].SSID == k && MeshInfos[k].PSK != ""
    }

    ghost function Db(): Psks
      reads this`MeshInfos, MeshInfos.Values
    {
      map k | k in MeshInfos :: MeshInfos[k].PSK
    }

    method MergeOne(ssid: string, v: MeshDevice)
      requires Valid() && v.SSID == ssid
      modifies this`MeshInfos, this`NeedsSave, v, MeshInfos.Values
      ensures Valid() && fresh(MeshInfos.Values - old(MeshInfos.Values))
      ensures Db() == MergedOne(old(Db()), ssid, old(v.PSK))
      ensures v.PSK == Shown(old(Db()), ssid, old(v.PSK))
      ensures NeedsSave == (old(NeedsSave) || Db() != old(Db()))
      ensures Named(old(MeshInfos), MeshInfos, map[ssid := v])
    {
      if ssid in MeshInfos {
        var md := MeshInfos[ssid];
        assert md.PSK == Db()[ssid];
        if md.PSK != "" {
          if v.PSK == "" {
            v.PSK := md.PSK;
          } else if v.PSK != md.PSK {
            md.PSK := v.PSK;
            NeedsSave := true;
            assert Db() == old(Db())[ssid := v.PSK];
            assert Db()[ssid] != old(Db())[ssid];
          }
        }
      } else if v.PSK != "" {
        var md := new MeshInfo(v.SSID, v.PSK, v.Name);
        NeedsSave := true;
        MeshInfos := MeshInfos[ssid := md];
        assert Db() == old(Db())[ssid := v.PSK];
        assert ssid in Db() && ssid !in old(Db());
      }
    }

    /** The strongest entry of each SSID. */
    method Strongest(scanR: seq<MeshDevice>) returns (scan: map<string, MeshDevice>)
      ensures Kept(scanR, scan)
    {
      scan := map[];
      for i := 0 to |scanR|
        invariant Kept(scanR[..i], scan)
      {
        var s := scanR[i];
        assert scanR[..i + 1][..i] == scanR[..i];
        if s.SSID !in scan || scan[s.SSID].Level < s.Level {
          scan := scan[s.SSID := s];
        }
      }
      assert scanR[..|scanR|] == scanR;
    }

    /** A status message: `scanR` is its scan. */
    method OnNetStatus(scanR: seq<MeshDevice>)
      requires Valid()
      modifies this, MeshInfos.Values, set d | d in scanR
      ensures Valid() && fresh(MeshInfos.Values - old(MeshInfos.Values))
      ensures Kept(scanR, Scan) && VisibleDevices == Scan
      ensures Db() == Merged(old(Db()), old(ReportedBy(scanR)))
      ensures PsksOf(Scan) == ShownAll(old(Db()), old(ReportedBy(scanR)))
      ensures forall k :: k in Scan ==> Scan[k].PSK == if k in MeshInfos then MeshInfos[k].PSK else ""
      ensures forall d :: d in scanR && d !in Scan.Values ==> d.PSK == old(d.PSK)
      ensures NeedsSave == (old(NeedsSave) || Db() != old(Db()))
      ensures Named(old(MeshInfos), MeshInfos, Scan)
    {
      hide Named;
      ghost var db, rep := Db(), ReportedBy(scanR);
      var scan := Strongest(scanR);
      KeptReports(scanR, scan);
      Scan := scan;
      MergeAll(scan, db, rep);
      VisibleHaveStoredKeys(db, rep);
    }

    lemma VisibleHaveStoredKeys(db: Psks, rep: Psks)
      requires Db() == Merged(db, rep) && PsksOf(Scan) == ShownAll(db, rep)
      ensures forall k :: k in Scan ==> Scan[k].PSK == if k in MeshInfos then MeshInfos[k].PSK else ""
    {
      hide Merged, Shown;
      forall k | k in Scan ensures Scan[k].PSK == if k in MeshInfos then MeshInfos[k].PSK else "" {
        assert k in PsksOf(Scan) && (k in MeshInfos <==> k in Db());
        ShownIsStored(db, rep, k);
      }
    }

    /** The loop over the kept entries, in whatever order the map comes out. */
    method MergeAll(scan: map<string, MeshDevice>, ghost db: Psks, ghost rep: Psks)
      requires Valid() && Keyed(scan) && db == Db() && rep == PsksOf(scan)
      modifies this`MeshInfos, this`NeedsSave, this`VisibleDevices, MeshInfos.Values, scan.Values
      ensures Valid() && fresh(MeshInfos.Values - old(MeshInfos.Values))
      ensures VisibleDevices == scan
      ensures Db() == Merged(db, rep) && PsksOf(scan) == ShownAll(db, rep)
      ensures NeedsSave == (old(NeedsSave) || Db() != db)
      ensures Named(old(MeshInfos), MeshInfos, scan)
    {
      hide Merged, Visible, MergedSoFar, Valid, Db, PsksOf, ShownAll, Keyed, Named;
      NamedSame(MeshInfos, scan);
      VisibleDevices := map[];
      ghost var saved := NeedsSave;
      var rest := scan.Keys;
      MergeStarts(scan, db, rep, saved);
      VisibleNothing(scan);
      assert Done(scan, rest) == {};
      while rest != {}
        invariant rest <= scan.Keys
        invariant fresh(MeshInfos.Values - old(MeshInfos.Values))
        invariant MergedSoFar(scan, db, rep, Done(scan, rest), saved)
        invariant VisibleDevices == Visible(scan, Done(scan, rest))
        invariant Named(old(MeshInfos), MeshInfos, scan)
      {
        hide Done;
        ghost var before := MeshInfos;
        assert (forall k :: k !in rest) ==> rest == {};
        var ssid :| ssid in rest;
        DoneNext(scan, rest, ssid);
        VisibleNext(scan, Done(scan, rest), ssid);
        MergeStep(scan, ssid, db, rep, Done(scan, rest), saved);
        NamedNext(old(MeshInfos), before, MeshInfos, scan, ssid);
        VisibleDevices := VisibleDevices[ssid := scan[ssid]];
        rest := rest - {ssid};
      }
      assert Done(scan, rest) == scan.Keys;
      MergeEnds(scan, db, rep, scan.Keys, saved);
    }

    lemma MergeStarts(scan: map<string, MeshDevice>, db: Psks, rep: Psks, saved: bool)
      requires Valid() && db == Db() && rep == PsksOf(scan) && NeedsSave == saved
      ensures MergedSoFar(scan, db, rep, {}, saved)
    {
      MergeNothing(db, rep);
    }

    lemma MergeEnds(scan: map<string, MeshDevice>, db: Psks, rep: Psks, done: set<string>, saved: bool)
      requires MergedSoFar(scan, db, rep, done, saved) && done == rep.Keys
      ensures Valid() && Db() == Merged(db, rep) && PsksOf(scan) == ShownAll(db, rep)
      ensures NeedsSave == (saved || Db() != db)
    {
      OnlyAll(db, rep, done);
    }

    /** The database, the devices and the flag after the entries `done` of a scan. */
    ghost predicate MergedSoFar(scan: map<string, MeshDevice>, db: Psks, rep: Psks, done: set<string>, saved: bool)
      reads this`MeshInfos, this`NeedsSave, MeshInfos.Values, scan.Values
    {
      && Valid() && Db() == Merged(db, Only(rep, done))
      && PsksOf(scan) == Progress(db, rep, done)
      && NeedsSave == (saved || Db() != db)
    }

    /** Merging one entry of a scan changes the key of no other. */
    method MergeEntry(scan: map<string, MeshDevice>, ssid: string)
      requires Valid() && Keyed(scan) && ssid in scan
      modifies this`MeshInfos, this`NeedsSave, MeshInfos.Values, scan[ssid]
      ensures Valid() && fresh(MeshInfos.Values - old(MeshInfos.Values))
      ensures Db() == MergedOne(old(Db()), ssid, old(PsksOf(scan)[ssid]))
      ensures PsksOf(scan) == old(PsksOf(scan))[ssid := Shown(old(Db()), ssid, old(PsksOf(scan)[ssid]))]
      ensures NeedsSave == (old(NeedsSave) || Db() != old(Db()))
      ensures Named(old(MeshInfos), MeshInfos, map[ssid := scan[ssid]])
    {
      hide MergedOne, Shown, Db, Valid, Named;
      MergeOne(ssid, scan[ssid]);
    }

    method MergeStep(scan: map<string, MeshDevice>, ssid: string,
                     ghost db: Psks, ghost rep: Psks, ghost done: set<string>, ghost saved: bool)
      requires Keyed(scan) && ssid in scan && ssid !in done && rep.Keys == scan.Keys
      requires MergedSoFar(scan, db, rep, done, saved)
      modifies this`MeshInfos, this`NeedsSave, MeshInfos.Values, scan[ssid]
      ensures MergedSoFar(scan, db, rep, done + {ssid}, saved)
      ensures fresh(MeshInfos.Values - old(MeshInfos.Values))
      ensures Named(old(MeshInfos), MeshInfos, map[ssid := scan[ssid]])
    {
      hide Merged, Only, MergedOne, Shown, Progress, Db, Valid, Named, PsksOf, Keyed;
      MergeNext(db, rep, done, ssid);
      ProgressNext(db, rep, done, ssid);
      MergeEntry(scan, ssid);
    }
  }

  /** Entries stay the objects they were, and a new one has the name of the device it was made for. */
  ghost predicate Named(was: map<string, MeshInfo>, now: map<string, MeshInfo>, scan: map<string, MeshDevice>) {
    && (forall k :: k in was ==> k in now && now[k] == was[k])
    && (forall k :: k in now && k !in was ==> k in scan && now[k].Name == scan[k].Name)
  }

  lemma NamedSame(was: map<string, MeshInfo>, scan: map<string, MeshDevice>)
    ensures Named(was, was, scan)
  {
  }

  lemma NamedNext(was: map<string, MeshInfo>, before: map<string, MeshInfo>, now: map<string, MeshInfo>,
                  scan: map<string, MeshDevice>, ssid: string)
    requires ssid in scan && Named(was, before, scan) && Named(before, now, map[ssid := scan[ssid]])
    ensures Named(was, now, scan)
  {
  }

  /** The entries that are no longer to do. */
  ghost function Done(scan: map<string, MeshDevice>, rest: set<string>): set<string> {
    scan.Keys - rest
  }

  lemma DoneNext(scan: map<string, MeshDevice>, rest: set<string>, ssid: string)
    requires ssid in rest && rest <= scan.Keys
    ensures ssid !in Done(scan, rest) && Done(scan, rest - {ssid}) == Done(scan, rest) + {ssid}
  {
  }

  ghost function Visible(scan: map<string, MeshDevice>, done: set<string>): map<string, MeshDevice> {
    map k | k in scan && k in done :: scan[k]
  }

  lemma VisibleNothing(scan: map<string, MeshDevice>)
    ensures Visible(scan, {}) == map[] && Visible(scan, scan.Keys) == scan
  {
  }

  lemma VisibleNext(scan: map<string, MeshDevice>, done: set<string>, ssid: string)
    requires ssid in scan
    ensures Visible(scan, done + {ssid}) == Visible(scan, done)[ssid := scan[ssid]]
  {
  }

  ghost predicate Keyed(scan: map<string, MeshDevice>) {
    forall k :: k in scan ==> scan[k].SSID == k
  }

  /** The map holds exactly the winners. */
  ghost predicate Kept(scanR: seq<MeshDevice>, scan: map<string, MeshDevice>) {
    && (forall k :: k in scan <==> Winner(scanR, k) != -1)
    && (forall k :: k in scan ==> scan[k] == scanR[Winner(scanR, k)])
  }

  lemma KeptReports(scanR: seq<MeshDevice>, scan: map<string, MeshDevice>)
    requires Kept(scanR, scan)
    ensures Keyed(scan) && PsksOf(scan) == ReportedBy(scanR)
    ensures scan.Values <= set d | d in scanR
  {
  }

  /** The keys that kept entries report. */
  ghost function PsksOf(scan: map<string, MeshDevice>): (r: Psks)
    reads scan.Values
    ensures r.Keys == scan.Keys
  {
    map k | k in scan :: scan[k].PSK
  }

  /** The keys that the winners of a scan report. */
  ghost function ReportedBy(scan: seq<MeshDevice>): (r: Psks)
    reads scan
    ensures forall k :: k in r <==> Winner(scan, k) != -1
    ensures forall k :: k in r ==> r[k] == scan[Winner(scan, k)].PSK
  {
    var ssids := set d | d in scan :: d.SSID;
    assert forall k :: Winner(scan, k) != -1 ==> scan[Winner(scan, k)] in scan;
    map k | k in ssids && Winner(scan, k) != -1 :: scan[Winner(scan, k)].PSK
  }

  ghost function Only(m: Psks, keys: set<string>): Psks {
    map k | k in m && k in keys :: m[k]
  }

  function ShownAll(db: Psks, rep: Psks): Psks {
    map k | k in rep :: Shown(db, k, rep[k])
  }

  /** The devices' keys when the entries `done` are merged. */
  ghost function Progress(db: Psks, rep: Psks, done: set<string>): Psks {
    map k | k in rep :: if k in done then Shown(db, k, rep[k]) else rep[k]
  }

  lemma MergeNothing(db: Psks, rep: Psks)
    ensures Merged(db, Only(rep, {})) == db && Progress(db, rep, {}) == rep
  {
  }

  lemma OnlyAll(db: Psks, rep: Psks, done: set<string>)
    requires done == rep.Keys
    ensures Only(rep, done) == rep && Progress(db, rep, done) == ShownAll(db, rep)
  {
  }

  lemma MergeNext(db: Psks, rep: Psks, done: set<string>, ssid: string)
    requires ssid in rep && ssid !in done
    ensures var before, after := Merged(db, Only(rep, done)), Merged(db, Only(rep, done + {ssid}));
            && after == MergedOne(before, ssid, rep[ssid])
            && (after != db <==> before != db || after != before)
            && Shown(before, ssid, rep[ssid]) == Shown(db, ssid, rep[ssid])
  {
    OnlyNext(rep, done, ssid);
    MergedNext(db, Only(rep, done), ssid, rep[ssid]);
    ChangeStays(db, Merged(db, Only(rep, done)), ssid, rep[ssid]);
  }

  lemma OnlyNext(rep: Psks, done: set<string>, ssid: string)
    requires ssid in rep && ssid !in done
    ensures Only(rep, done + {ssid}) == Only(rep, done)[ssid := rep[ssid]] && ssid !in Only(rep, done)
  {
  }

  lemma ProgressNext(db: Psks, rep: Psks, done: set<string>, ssid: string)
    requires ssid in rep && ssid !in done
    ensures Progress(db, rep, done)[ssid := Shown(db, ssid, rep[ssid])] == Progress(db, rep, done + {ssid})
    ensures Progress(db, rep, done)[ssid] == rep[ssid]
  {
  }

  lemma ChangeStays(db: Psks, before: Psks, ssid: string, psk: string)
    requires (ssid in before <==> ssid in db) && (ssid in db ==> before[ssid] == db[ssid])
    ensures var after := MergedOne(before, ssid, psk);
            after != db <==> before != db || after != before
  {
    var after := MergedOne(before, ssid, psk);
    if after != before {
      assert ssid in after && (ssid in db ==> after[ssid] != db[ssid]);
    }
  }

  // ----- Whole runs

  /** The database after scans whose winners reported these keys, one map a scan. */
  function RunDb(reports: seq<Psks>): Psks {
    if reports == [] then map[] else Merged(RunDb(reports[..|reports| - 1]), reports[|reports| - 1])
  }

  /** Whether some scan of the run changed the database. */
  ghost predicate RunChanges(reports: seq<Psks>) {
    exists i :: 0 <= i < |reports| && ScanChanges(reports, i)
  }

  predicate ScanChanges(reports: seq<Psks>, i: nat)
    requires i < |reports|
  {
    RunDb(reports[..i + 1]) != RunDb(reports[..i])
  }

  predicate Reports(m: Psks, ssid: string) {
    ssid in m && m[ssid] != ""
  }

  /** An SSID is known exactly when some scan's winner reported a key for it, and what is stored is
      the last one reported. */
  lemma {:induction false} DbIsLastReport(reports: seq<Psks>, ssid: string) returns (i: int)
    ensures if i == -1 then ssid !in RunDb(reports) && forall j :: 0 <= j < |reports| ==> !Reports(reports[j], ssid)
            else && 0 <= i < |reports| && Reports(reports[i], ssid)
                 && ssid in RunDb(reports) && RunDb(reports)[ssid] == reports[i][ssid]
                 && forall j :: i < j < |reports| ==> !Reports(reports[j], ssid)
    decreases |reports|
  {
    if reports == [] {
      i := -1;
    } else {
      var n := |reports| - 1;
      if Reports(reports[n], ssid) {
        i := n;
      } else {
        i := DbIsLastReport(reports[..n], ssid);
        assert forall j :: 0 <= j < n ==> reports[..n][j] == reports[j];
      }
    }
  }

  /** No entry ever vanishes or loses its key. */
  lemma {:induction false} NothingVanishes(reports: seq<Psks>, i: nat, ssid: string)
    requires i <= |reports| && ssid in RunDb(reports[..i])
    ensures ssid in RunDb(reports) && RunDb(reports)[ssid] != ""
    decreases |reports|
  {
    if i < |reports| {
      var init := reports[..|reports| - 1];
      assert init[..i] == reports[..i];
      NothingVanishes(init, i, ssid);
    } else {
      assert reports[..i] == reports;
      var last := DbIsLastReport(reports, ssid);
    }
  }

  lemma RunNext(reports: seq<Psks>, rep: Psks)
    ensures RunDb(reports + [rep]) == Merged(RunDb(reports), rep)
    ensures RunChanges(reports + [rep]) <==> RunChanges(reports) || Merged(RunDb(reports), rep) != RunDb(reports)
  {
    var after := reports + [rep];
    assert after[..|reports|] == reports && after[..|after|] == after;
    forall i | 0 <= i < |reports| ensures ScanChanges(after, i) == ScanChanges(reports, i) {
      assert after[..i] == reports[..i] && after[..i + 1] == reports[..i + 1];
    }
    assert ScanChanges(after, |reports|) <==> Merged(RunDb(reports), rep) != RunDb(reports);
    if RunChanges(reports) {
      var i :| 0 <= i < |reports| && ScanChanges(reports, i);
      assert ScanChanges(after, i);
    }
  }

  /** A run of status messages on a new database, each with devices of its own: it ends with the
      run's database, and the flag is set exactly when some message changed it. */
  method Run(wifi: Wifi, scans: seq<seq<MeshDevice>>) returns (ghost reports: seq<Psks>)
    requires wifi.MeshInfos == map[] && !wifi.NeedsSave
    requires forall i, j, d :: 0 <= i < j < |scans| && d in scans[i] ==> d !in scans[j]
    modifies wifi, set s, d | s in scans && d in s :: d
    ensures |reports| == |scans| && forall i :: 0 <= i < |scans| ==> reports[i] == old(ReportedBy(scans[i]))
    ensures wifi.Valid() && wifi.Db() == RunDb(reports) && wifi.NeedsSave == RunChanges(reports)
  {
    hide Merged, RunChanges, RunDb, ReportedBy;
    reports := [];
    RunStarts();
    for i := 0 to |scans|
      invariant |reports| == i && forall j :: 0 <= j < i ==> reports[j] == old(ReportedBy(scans[j]))
      invariant forall j, d :: i <= j < |scans| && d in scans[j] ==> d.PSK == old(d.PSK)
      invariant wifi.Valid() && fresh(wifi.MeshInfos.Values)
      invariant wifi.Db() == RunDb(reports) && wifi.NeedsSave == RunChanges(reports)
    {
      assert ReportedBy(scans[i]) == old(ReportedBy(scans[i]));
      RunNext(reports, ReportedBy(scans[i]));
      reports := reports + [ReportedBy(scans[i])];
      wifi.OnNetStatus(scans[i]);
    }
  }

  lemma RunStarts()
    ensures RunDb([]) == map[] && !RunChanges([])
  {
  }
}

// `formatHorariosProfesores` of the hours-ledger ("banco de horas") route: the
// schedule records folded into one entry per holder, in first-seen order,
// each with one bucket per appointment title holding one (HT, HP) slot per
// semester of the header, and the holder's career looked up in the roster.
module Ledger {
  import opened JsValues
  import opened Normalize
  import opened Buckets

  const Unknown: string := "desconocido"
  const NoName: string := "SIN NOMBRE"
  const NotAvailable: string := "N/D"

  // ---------------------------------------------------------------------------
  // Lookup keys

  /** `toUpperCase()` on ASCII letters and on the accented Latin small letters. */
  function Upper(c: char): (u: char)
    ensures 'a' <= c <= 'z' ==> 'A' <= u <= 'Z'
    ensures !('a' <= c <= 'z') && !('\U{00E0}' <= c <= '\U{00FE}') ==> u == c
  {
    if 'a' <= c <= 'z' then (c as int - 32) as char
    else if '\U{00E0}' <= c <= '\U{00FE}' && c != '\U{00F7}' then (c as int - 32) as char
    else c
  }

  function UpperAll(s: string): (r: string)
    ensures |r| == |s| && forall i :: 0 <= i < |s| ==> r[i] == Upper(s[i])
  {
    seq(|s|, i requires 0 <= i < |s| => Upper(s[i]))
  }

  /** `norm` of a string: trimmed, upper-cased, accents stripped. */
  function NormText(s: string): string {
    StripAccents(UpperAll(Trim(s)))
  }

  /** `norm(v)`: null and undefined give "". */
  function Norm(v: Value): string {
    if IsNullish(v) then "" else NormText(ToStr(v))
  }

  // ---------------------------------------------------------------------------
  // The roster's three lookup tables

  /** `(p.carrera ?? p.career ?? "").toString().trim() || "desconocido"`. */
  function RosterCareer(p: Record): (c: string)
    ensures c != ""
  {
    Or(Trim(TextOf(Coalesce(Get(p, "carrera"), Get(p, "career")))), Unknown)
  }

  function RfcKey(p: Record): string {
    Norm(Get(p, "rfc"))
  }

  /** `String(p.numTrabajador ?? p.num_trabajador ?? p.trabajador ?? "").trim()`. */
  function WorkerKey(p: Record): string {
    Trim(TextOf(Coalesce(Get(p, "numTrabajador"), Coalesce(Get(p, "num_trabajador"), Get(p, "trabajador")))))
  }

  function NameKey(p: Record): string {
    Norm(Get(p, "profesor"))
  }

  /**
   * One lookup table after the roster loop: each non-empty key to the value of
   * its entry, a later entry overwriting an earlier one.
   */
  function Index<T>(xs: seq<T>, key: T -> string, val: T -> string): (m: map<string, string>)
    ensures "" !in m
    decreases |xs|
  {
    if xs == [] then map[]
    else
      var x := xs[|xs| - 1];
      var m := Index(xs[..|xs| - 1], key, val);
      if key(x) != "" then m[key(x) := val(x)] else m
  }

  datatype Roster = Roster(byRfc: map<string, string>, byWorker: map<string, string>, byName: map<string, string>)

  function RosterOf(profs: seq<Record>): Roster {
    Roster(Index(profs, RfcKey, RosterCareer), Index(profs, WorkerKey, RosterCareer), Index(profs, NameKey, RosterCareer))
  }

  /** The roster loop of `formatHorariosProfesores`. */
  method BuildRoster(profs: seq<Record>) returns (roster: Roster)
    ensures roster == RosterOf(profs)
  {
    var byRfc: map<string, string> := map[];
    var byWorker: map<string, string> := map[];
    var byName: map<string, string> := map[];
    var i := 0;
    while i < |profs|
      invariant 0 <= i <= |profs|
      invariant byRfc == Index(profs[..i], RfcKey, RosterCareer)
      invariant byWorker == Index(profs[..i], WorkerKey, RosterCareer)
      invariant byName == Index(profs[..i], NameKey, RosterCareer)
    {
      var p := profs[i];
      IndexStep(profs, RfcKey, RosterCareer, i);
      IndexStep(profs, WorkerKey, RosterCareer, i);
      IndexStep(profs, NameKey, RosterCareer, i);
      var rfcKey, workerKey, nameKey := RfcKey(p), WorkerKey(p), NameKey(p);
      var carrera := RosterCareer(p);
      if rfcKey != "" {
        byRfc := byRfc[rfcKey := carrera];
      }
      if workerKey != "" {
        byWorker := byWorker[workerKey := carrera];
      }
      if nameKey != "" {
        byName := byName[nameKey := carrera];
      }
      i := i + 1;
    }
    assert profs[..i] == profs;
    roster := Roster(byRfc, byWorker, byName);
  }

  lemma IndexStep<T>(xs: seq<T>, key: T -> string, val: T -> string, i: int)
    requires 0 <= i < |xs|
    ensures Index(xs[..i + 1], key, val)
            == if key(xs[i]) != "" then Index(xs[..i], key, val)[key(xs[i]) := val(xs[i])]
               else Index(xs[..i], key, val)
  {
    assert xs[..i + 1][..i] == xs[..i];
  }

  /** The table holds exactly the non-empty keys of the entries. */
  lemma {:induction false} IndexDomain<T>(xs: seq<T>, key: T -> string, val: T -> string, k: string)
    ensures k in Index(xs, key, val) <==> k != "" && exists i :: 0 <= i < |xs| && key(xs[i]) == k
    decreases |xs|
  {
    if xs != [] {
      var init := xs[..|xs| - 1];
      IndexDomain(init, key, val, k);
      if k in Index(init, key, val) {
        var i :| 0 <= i < |init| && key(init[i]) == k;
        assert key(xs[i]) == k;
      }
      if k != "" && k !in Index(xs, key, val) {
        forall i | 0 <= i < |xs|
          ensures key(xs[i]) != k
        {
          if i < |init| {
            assert xs[i] == init[i];
          }
        }
      }
    }
  }

  /** A key maps to the value of the last entry that has it. */
  lemma {:induction false} IndexLatest<T>(xs: seq<T>, key: T -> string, val: T -> string, i: int)
    requires 0 <= i < |xs| && key(xs[i]) != ""
    requires forall j :: i < j < |xs| ==> key(xs[j]) != key(xs[i])
    ensures key(xs[i]) in Index(xs, key, val)
    ensures Index(xs, key, val)[key(xs[i])] == val(xs[i])
    decreases |xs|
  {
    if i < |xs| - 1 {
      var init := xs[..|xs| - 1];
      assert init[i] == xs[i];
      forall j | i < j < |init|
        ensures key(init[j]) != key(init[i])
      {
        assert init[j] == xs[j];
      }
      IndexLatest(init, key, val, i);
    }
  }

  /** Every value in the table is the value of some entry. */
  lemma {:induction false} IndexValues<T>(xs: seq<T>, key: T -> string, val: T -> string, k: string)
    requires k in Index(xs, key, val)
    ensures exists i :: 0 <= i < |xs| && Index(xs, key, val)[k] == val(xs[i])
    decreases |xs|
  {
    var init := xs[..|xs| - 1];
    var x := xs[|xs| - 1];
    if key(x) != k || key(x) == "" {
      IndexValues(init, key, val, k);
      var i :| 0 <= i < |init| && Index(init, key, val)[k] == val(init[i]);
      assert init[i] == xs[i];
    } else {
      assert Index(xs, key, val)[k] == val(xs[|xs| - 1]);
    }
  }

  // ---------------------------------------------------------------------------
  // Holders and their career

  /** The identity of a ledger entry: trimmed name, RFC and worker number. */
  datatype Holder = Holder(name: string, rfc: string, worker: string)

  /** `(v ?? dflt).toString().trim()`. */
  function FieldOr(v: Value, dflt: string): string {
    Trim(ToStr(Coalesce(v, Str(dflt))))
  }

  function HolderOf(h: Record): Holder {
    Holder(FieldOr(Get(h, "profesor"), NoName), FieldOr(Get(h, "rfc"), NotAvailable),
           FieldOr(Get(h, "numTrabajador"), NotAvailable))
  }

  /** The career of a schedule record: by folded RFC, else by worker number, else by folded name. */
  function Resolve(roster: Roster, hd: Holder): string {
    var rfcKey := NormText(hd.rfc);
    var nameKey := NormText(hd.name);
    if rfcKey in roster.byRfc then roster.byRfc[rfcKey]
    else if hd.worker in roster.byWorker then roster.byWorker[hd.worker]
    else if nameKey in roster.byName then roster.byName[nameKey]
    else Unknown
  }

  /** The RFC decides first: the career of the last roster entry with that folded RFC. */
  lemma ResolveByRfc(profs: seq<Record>, hd: Holder, i: int)
    requires 0 <= i < |profs| && RfcKey(profs[i]) == NormText(hd.rfc) != ""
    requires forall j :: i < j < |profs| ==> RfcKey(profs[j]) != RfcKey(profs[i])
    ensures Resolve(RosterOf(profs), hd) == RosterCareer(profs[i])
  {
    IndexLatest(profs, RfcKey, RosterCareer, i);
  }

  /** With no roster entry for the RFC, the worker number decides. */
  lemma ResolveByWorker(profs: seq<Record>, hd: Holder, i: int)
    requires forall j :: 0 <= j < |profs| ==> RfcKey(profs[j]) != NormText(hd.rfc)
    requires 0 <= i < |profs| && WorkerKey(profs[i]) == hd.worker != ""
    requires forall j :: i < j < |profs| ==> WorkerKey(profs[j]) != WorkerKey(profs[i])
    ensures Resolve(RosterOf(profs), hd) == RosterCareer(profs[i])
  {
    IndexDomain(profs, RfcKey, RosterCareer, NormText(hd.rfc));
    IndexLatest(profs, WorkerKey, RosterCareer, i);
  }

  /** With neither RFC nor worker number in the roster, the folded name decides. */
  lemma ResolveByName(profs: seq<Record>, hd: Holder, i: int)
    requires forall j :: 0 <= j < |profs| ==> RfcKey(profs[j]) != NormText(hd.rfc)
    requires forall j :: 0 <= j < |profs| ==> WorkerKey(profs[j]) != hd.worker
    requires 0 <= i < |profs| && NameKey(profs[i]) == NormText(hd.name) != ""
    requires forall j :: i < j < |profs| ==> NameKey(profs[j]) != NameKey(profs[i])
    ensures Resolve(RosterOf(profs), hd) == RosterCareer(profs[i])
  {
    IndexDomain(profs, RfcKey, RosterCareer, NormText(hd.rfc));
    IndexDomain(profs, WorkerKey, RosterCareer, hd.worker);
    IndexLatest(profs, NameKey, RosterCareer, i);
  }

  /** A holder the roster does not know is "desconocido". */
  lemma ResolveUnknown(profs: seq<Record>, hd: Holder)
    requires forall j :: 0 <= j < |profs| ==>
      RfcKey(profs[j]) != NormText(hd.rfc) && WorkerKey(profs[j]) != hd.worker && NameKey(profs[j]) != NormText(hd.name)
    ensures Resolve(RosterOf(profs), hd) == Unknown
  {
    IndexDomain(profs, RfcKey, RosterCareer, NormText(hd.rfc));
    IndexDomain(profs, WorkerKey, RosterCareer, hd.worker);
    IndexDomain(profs, NameKey, RosterCareer, NormText(hd.name));
  }

  /** Every career found is the career of some roster entry, so it is never blank. */
  lemma ResolveFromRoster(profs: seq<Record>, hd: Holder)
    ensures Resolve(RosterOf(profs), hd) == Unknown ||
            exists j :: 0 <= j < |profs| && Resolve(RosterOf(profs), hd) == RosterCareer(profs[j])
    ensures Resolve(RosterOf(profs), hd) != ""
  {
    var r := RosterOf(profs);
    if NormText(hd.rfc) in r.byRfc {
      IndexValues(profs, RfcKey, RosterCareer, NormText(hd.rfc));
    } else if hd.worker in r.byWorker {
      IndexValues(profs, WorkerKey, RosterCareer, hd.worker);
    } else if NormText(hd.name) in r.byName {
      IndexValues(profs, NameKey, RosterCareer, NormText(hd.name));
    }
  }

  // ---------------------------------------------------------------------------
  // What one schedule record contributes

  /** Theory and practice hours. */
  type Slot = (JsNumber, JsNumber)

  /** A record's holder, appointment title, semester label and hours. */
  datatype Posting = Posting(holder: Holder, nom: string, term: string, hours: Slot)

  /** `[toInt(h.horasTeoricas ?? h.horasTeoricasTotal ?? h.horasTotal), toInt(h.horasPracticas ?? h.horasPracticasTotal)]`. */
  function HoursOf(h: Record): Slot {
    (ToIntLoose(Coalesce(Get(h, "horasTeoricas"), Coalesce(Get(h, "horasTeoricasTotal"), Get(h, "horasTotal")))),
     ToIntLoose(Coalesce(Get(h, "horasPracticas"), Get(h, "horasPracticasTotal"))))
  }

  function PostingOf(h: Record): Posting {
    Posting(HolderOf(h),
            BuildNombramiento(Get(h, "categoria"), Get(h, "tipo"), Get(h, "causa")),
            SemesterLabelFromStart(Get(h, "diaIni"), Get(h, "mesIni"), Get(h, "anoIni")),
            HoursOf(h))
  }

  function Postings(hors: seq<Record>): (ps: seq<Posting>)
    ensures |ps| == |hors| && forall i :: 0 <= i < |hors| ==> ps[i] == PostingOf(hors[i])
  {
    seq(|hors|, i requires 0 <= i < |hors| => PostingOf(hors[i]))
  }

  // ---------------------------------------------------------------------------
  // The ledger

  /** One appointment title of a holder and its hours per semester. */
  datatype Subject = Subject(nom: string, parcial: seq<Slot>)

  /** One entry of the result. */
  datatype Professor = Professor(holder: Holder, carrera: string, subjects: seq<Subject>)

  const NoHours: Slot := (Finite(0), Finite(0))

  /** `semestres.map(() => [0, 0])`. */
  function Zeros(n: nat): (z: seq<Slot>)
    ensures |z| == n && forall i :: 0 <= i < n ==> z[i] == NoHours
  {
    seq(n, i => NoHours)
  }

  /** `sems.indexOf(label)`. */
  function IndexOf(sems: seq<string>, t: string): (i: int)
    ensures -1 <= i < |sems|
    ensures i >= 0 ==> sems[i] == t && forall j :: 0 <= j < i ==> sems[j] != t
    ensures i < 0 <==> t !in sems
  {
    if sems == [] then -1
    else if sems[0] == t then 0
    else
      var j := IndexOf(sems[1..], t);
      if j < 0 then -1 else j + 1
  }

  /** The slot a t goes to: its place in the list, or the first slot when it is not listed. */
  function SlotOf(sems: seq<string>, t: string): (i: nat)
    ensures sems != [] ==> i < |sems|
    ensures t in sems ==> sems[i] == t
    ensures t !in sems ==> i == 0
  {
    var i := IndexOf(sems, t);
    if i < 0 then 0 else i
  }

  /** `profMap.get(key)`: where the holder's entry is, or -1. */
  function FindHolder(ps: seq<Professor>, hd: Holder): (i: int)
    ensures -1 <= i < |ps|
    ensures i >= 0 ==> ps[i].holder == hd && forall j :: 0 <= j < i ==> ps[j].holder != hd
    ensures i < 0 <==> forall j :: 0 <= j < |ps| ==> ps[j].holder != hd
  {
    if ps == [] then -1
    else if ps[0].holder == hd then 0
    else
      var j := FindHolder(ps[1..], hd);
      if j < 0 then -1 else j + 1
  }

  /** `prof.subjects.get(nom)`: where the title's bucket is, or -1. */
  function FindSubject(ss: seq<Subject>, nom: string): (i: int)
    ensures -1 <= i < |ss|
    ensures i >= 0 ==> ss[i].nom == nom && forall j :: 0 <= j < i ==> ss[j].nom != nom
    ensures i < 0 <==> forall j :: 0 <= j < |ss| ==> ss[j].nom != nom
  {
    if ss == [] then -1
    else if ss[0].nom == nom then 0
    else
      var j := FindSubject(ss[1..], nom);
      if j < 0 then -1 else j + 1
  }

  /** `slot[0] += ht; slot[1] += hp`. */
  function AddSlot(a: Slot, b: Slot): Slot {
    (Add(a.0, b.0), Add(a.1, b.1))
  }

  /** Every title bucket has exactly n semester slots. */
  ghost predicate Shaped(ps: seq<Professor>, n: nat) {
    forall i, k :: 0 <= i < |ps| && 0 <= k < |ps[i].subjects| ==> |ps[i].subjects[k].parcial| == n
  }

  /** The known career replaces "desconocido"; nothing else changes it. */
  function Upgrade(carrera: string, found: string): (r: string)
    ensures r == carrera || (carrera == Unknown && r == found && found != Unknown)
  {
    if carrera == Unknown && found != Unknown then found else carrera
  }

  /** The title buckets after one record: the bucket created when new, then one slot incremented. */
  function PostSubject(ss: seq<Subject>, nom: string, idx: nat, hours: Slot, n: nat): (r: seq<Subject>)
    requires idx < n && forall k :: 0 <= k < |ss| ==> |ss[k].parcial| == n
    ensures forall k :: 0 <= k < |r| ==> |r[k].parcial| == n
  {
    var k := FindSubject(ss, nom);
    var ss1 := if k < 0 then ss + [Subject(nom, Zeros(n))] else ss;
    var at := if k < 0 then |ss| else k;
    var s := ss1[at];
    ss1[at := Subject(s.nom, s.parcial[idx := AddSlot(s.parcial[idx], hours)])]
  }

  /** The entries after one record, the holder's career found by `career`. */
  function Post(ps: seq<Professor>, career: Holder -> string, sems: seq<string>, p: Posting): (r: seq<Professor>)
    requires sems != [] && Shaped(ps, |sems|)
    ensures Shaped(r, |sems|)
  {
    var c := career(p.holder);
    var i := FindHolder(ps, p.holder);
    var ps1 := if i < 0 then ps + [Professor(p.holder, c, [])]
               else ps[i := Professor(ps[i].holder, Upgrade(ps[i].carrera, c), ps[i].subjects)];
    var at := if i < 0 then |ps| else i;
    var e := ps1[at];
    ps1[at := Professor(e.holder, e.carrera, PostSubject(e.subjects, p.nom, SlotOf(sems, p.term), p.hours, |sems|))]
  }

  /** The entries after the records, in order. */
  function LedgerOf(ps: seq<Posting>, career: Holder -> string, sems: seq<string>): (r: seq<Professor>)
    requires sems != []
    ensures Shaped(r, |sems|)
    decreases |ps|
  {
    if ps == [] then []
    else Post(LedgerOf(ps[..|ps| - 1], career, sems), career, sems, ps[|ps| - 1])
  }

  lemma LedgerStep(ps: seq<Posting>, career: Holder -> string, sems: seq<string>, i: int)
    requires sems != [] && 0 <= i < |ps|
    ensures LedgerOf(ps[..i + 1], career, sems) == Post(LedgerOf(ps[..i], career, sems), career, sems, ps[i])
  {
    assert ps[..i + 1][..i] == ps[..i];
  }

  function CareerIn(roster: Roster): Holder -> string {
    (hd: Holder) => Resolve(roster, hd)
  }

  /** What `formatHorariosProfesores(horarios, profesores, semestres)` returns. */
  function Format(horarios: seq<Record>, profesores: seq<Record>, semestres: seq<string>): seq<Professor>
    requires semestres != []
  {
    LedgerOf(Postings(horarios), CareerIn(RosterOf(profesores)), semestres)
  }

  /** One record's step of the main loop, as the route writes it. */
  method PostRecord(profMap: seq<Professor>, career: Holder -> string, semestres: seq<string>, p: Posting)
    returns (next: seq<Professor>)
    requires semestres != [] && Shaped(profMap, |semestres|)
    ensures next == Post(profMap, career, semestres, p)
  {
    var carrera := career(p.holder);
    var at := FindHolder(profMap, p.holder);
    next := profMap;
    if at < 0 {
      next := next + [Professor(p.holder, carrera, [])];
      at := |next| - 1;
    } else if next[at].carrera == Unknown && carrera != Unknown {
      next := next[at := Professor(next[at].holder, carrera, next[at].subjects)];
    } else {
      next := next[at := Professor(next[at].holder, next[at].carrera, next[at].subjects)];
    }
    var subjects := next[at].subjects;
    var k := FindSubject(subjects, p.nom);
    if k < 0 {
      subjects := subjects + [Subject(p.nom, Zeros(|semestres|))];
      k := |subjects| - 1;
    }
    var idx := IndexOf(semestres, p.term);
    if idx == -1 {
      idx := 0;
    }
    var subj := subjects[k];
    subjects := subjects[k := Subject(subj.nom, subj.parcial[idx := AddSlot(subj.parcial[idx], p.hours)])];
    next := next[at := Professor(next[at].holder, next[at].carrera, subjects)];
  }

  /** `formatHorariosProfesores`: the roster loop, then one step per schedule record. */
  method FormatHorariosProfesores(horarios: seq<Record>, profesores: seq<Record>, semestres: seq<string>)
    returns (out: seq<Professor>)
    requires semestres != []
    ensures out == Format(horarios, profesores, semestres)
  {
    var roster := BuildRoster(profesores);
    var career := CareerIn(roster);
    var ps := Postings(horarios);
    var profMap: seq<Professor> := [];
    var i := 0;
    while i < |horarios|
      invariant 0 <= i <= |horarios|
      invariant profMap == LedgerOf(ps[..i], career, semestres)
    {
      LedgerStep(ps, career, semestres, i);
      profMap := PostRecord(profMap, career, semestres, ps[i]);
      i := i + 1;
    }
    assert ps[..i] == ps;
    out := profMap;
  }

  // ---------------------------------------------------------------------------
  // Holder identity and order

  function HoldersOf(ps: seq<Professor>): (hs: seq<Holder>)
    ensures |hs| == |ps| && forall i :: 0 <= i < |ps| ==> hs[i] == ps[i].holder
  {
    seq(|ps|, i requires 0 <= i < |ps| => ps[i].holder)
  }

  function HoldersIn(ps: seq<Posting>): (hs: seq<Holder>)
    ensures |hs| == |ps| && forall i :: 0 <= i < |ps| ==> hs[i] == ps[i].holder
  {
    seq(|ps|, i requires 0 <= i < |ps| => ps[i].holder)
  }

  /** The route's map key, `${name}|${rfc}|${worker}`. */
  function JoinedKey(hd: Holder): string {
    hd.name + "|" + hd.rfc + "|" + hd.worker
  }

  /** Where the first `|` of s is, or |s|. */
  function FirstBar(s: string): (i: nat)
    ensures i <= |s|
    ensures i < |s| ==> s[i] == '|'
    ensures forall j :: 0 <= j < i ==> s[j] != '|'
  {
    if s == [] then 0 else if s[0] == '|' then 0 else 1 + FirstBar(s[1..])
  }

  lemma {:induction false} FirstBarOf(a: string, b: string)
    requires '|' !in a
    ensures FirstBar(a + "|" + b) == |a|
    decreases |a|
  {
    if a != [] {
      assert (a + "|" + b)[1..] == a[1..] + "|" + b;
      FirstBarOf(a[1..], b);
    }
  }

  lemma SplitAtBar(a: string, b: string, c: string, d: string)
    requires '|' !in a && '|' !in c && a + "|" + b == c + "|" + d
    ensures a == c && b == d
  {
    FirstBarOf(a, b);
    FirstBarOf(c, d);
    var x := a + "|" + b;
    assert a == x[..|a|] && c == x[..|c|];
    assert b == x[|a| + 1..] && d == x[|c| + 1..];
  }

  /**
   * Keying the entries by the (name, RFC, worker) triple is keying them by the
   * joined string as long as names and RFCs hold no `|`.
   */
  lemma JoinedKeyInjective(h1: Holder, h2: Holder)
    requires '|' !in h1.name && '|' !in h1.rfc && '|' !in h2.name && '|' !in h2.rfc
    ensures JoinedKey(h1) == JoinedKey(h2) <==> h1 == h2
  {
    if JoinedKey(h1) == JoinedKey(h2) {
      assert JoinedKey(h1) == h1.name + "|" + (h1.rfc + "|" + h1.worker);
      assert JoinedKey(h2) == h2.name + "|" + (h2.rfc + "|" + h2.worker);
      SplitAtBar(h1.name, h1.rfc + "|" + h1.worker, h2.name, h2.rfc + "|" + h2.worker);
      SplitAtBar(h1.rfc, h1.worker, h2.rfc, h2.worker);
    }
  }

  /** Without that proviso two holders can share a joined key. */
  lemma JoinedKeyCollision()
    ensures Holder("A|B", "C", "D") != Holder("A", "B|C", "D")
    ensures JoinedKey(Holder("A|B", "C", "D")) == JoinedKey(Holder("A", "B|C", "D"))
  {
    assert "A|B" != "A";
  }

  /** One record's step keeps the entries' holders, adding the record's holder at the end when new. */
  lemma PostHolders(ps: seq<Professor>, career: Holder -> string, sems: seq<string>, p: Posting)
    requires sems != [] && Shaped(ps, |sems|)
    ensures HoldersOf(Post(ps, career, sems, p))
            == HoldersOf(ps) + (if p.holder in HoldersOf(ps) then [] else [p.holder])
  {
    var r := Post(ps, career, sems, p);
    var i := FindHolder(ps, p.holder);
    if i >= 0 {
      assert HoldersOf(ps)[i] == p.holder;
    } else {
      assert p.holder !in HoldersOf(ps);
    }
  }

  /**
   * The entries come out one per distinct holder, in the order each holder is
   * first seen: two records share an entry exactly when their trimmed name, RFC
   * and worker number all agree.
   */
  lemma {:induction false} LedgerHolders(ps: seq<Posting>, career: Holder -> string, sems: seq<string>)
    requires sems != []
    ensures HoldersOf(LedgerOf(ps, career, sems)) == Dedup(HoldersIn(ps))
    decreases |ps|
  {
    if ps != [] {
      var init := ps[..|ps| - 1];
      var p := ps[|ps| - 1];
      var prev := LedgerOf(init, career, sems);
      LedgerHolders(init, career, sems);
      PostHolders(prev, career, sems, p);
      var hs, hi := HoldersIn(ps), HoldersIn(init);
      assert hs[..|hs| - 1] == hi;
      assert Dedup(hs) == Dedup(hi) + (if p.holder in hi then [] else [p.holder]);
      assert p.holder in HoldersOf(prev) <==> p.holder in hi;
    }
  }

  /** Each record's holder has exactly one entry, and that entry is the holder's. */
  lemma EntryOfRecord(ps: seq<Posting>, career: Holder -> string, sems: seq<string>, a: int)
    requires sems != [] && 0 <= a < |ps|
    ensures FindHolder(LedgerOf(ps, career, sems), ps[a].holder) >= 0
    ensures forall j :: 0 <= j < |LedgerOf(ps, career, sems)| && LedgerOf(ps, career, sems)[j].holder == ps[a].holder
              ==> j == FindHolder(LedgerOf(ps, career, sems), ps[a].holder)
  {
    var l := LedgerOf(ps, career, sems);
    LedgerHolders(ps, career, sems);
    assert HoldersIn(ps)[a] == ps[a].holder;
    assert ps[a].holder in HoldersOf(l);
  }

  // ---------------------------------------------------------------------------
  // Title order

  /** The titles of a holder's buckets, in bucket order. */
  function Titles(ss: seq<Subject>): (ts: seq<string>)
    ensures |ts| == |ss| && forall k :: 0 <= k < |ss| ==> ts[k] == ss[k].nom
  {
    seq(|ss|, k requires 0 <= k < |ss| => ss[k].nom)
  }

  /** The titles of one holder's records, in record order. */
  function TitlesFor(ps: seq<Posting>, hd: Holder): seq<string>
    decreases |ps|
  {
    if ps == [] then []
    else TitlesFor(ps[..|ps| - 1], hd) + (if ps[|ps| - 1].holder == hd then [ps[|ps| - 1].nom] else [])
  }

  /** The titles of hd's entry, or none when hd has no entry. */
  function EntryTitles(l: seq<Professor>, hd: Holder): seq<string> {
    var i := FindHolder(l, hd);
    if i < 0 then [] else Titles(l[i].subjects)
  }

  /** One record adds a bucket for its title at the end when the title is new, and renames nothing. */
  lemma PostSubjectTitles(ss: seq<Subject>, nom: string, idx: nat, hours: Slot, n: nat)
    requires idx < n && forall k :: 0 <= k < |ss| ==> |ss[k].parcial| == n
    ensures Titles(PostSubject(ss, nom, idx, hours, n)) == Titles(ss) + (if nom in Titles(ss) then [] else [nom])
  {
    var k := FindSubject(ss, nom);
    if nom in Titles(ss) {
      var j :| 0 <= j < |ss| && Titles(ss)[j] == nom;
      assert ss[j].nom == nom;
    }
    var ss1 := if k < 0 then ss + [Subject(nom, Zeros(n))] else ss;
    var at := if k < 0 then |ss| else k;
    assert Titles(ss1) == Titles(ss) + (if k < 0 then [nom] else []);
    var s := ss1[at];
    var r := ss1[at := Subject(s.nom, s.parcial[idx := AddSlot(s.parcial[idx], hours)])];
    assert Titles(r) == Titles(ss1);
  }

  /** One record's step: only its holder's titles change, by its title at the end when new. */
  lemma PostTitles(ps: seq<Professor>, career: Holder -> string, sems: seq<string>, p: Posting, hd: Holder)
    requires sems != [] && Shaped(ps, |sems|)
    ensures EntryTitles(Post(ps, career, sems, p), hd)
            == EntryTitles(ps, hd) + (if p.holder == hd && p.nom !in EntryTitles(ps, hd) then [p.nom] else [])
  {
    var c := career(p.holder);
    var i := FindHolder(ps, p.holder);
    var ps1 := if i < 0 then ps + [Professor(p.holder, c, [])]
               else ps[i := Professor(ps[i].holder, Upgrade(ps[i].carrera, c), ps[i].subjects)];
    var at := if i < 0 then |ps| else i;
    if i < 0 {
      FindHolderAppend(ps, Professor(p.holder, c, []), hd);
      FindHolderAppend(ps, Professor(p.holder, c, []), p.holder);
      var f := FindHolder(ps, hd);
      if f >= 0 {
        assert ps1[f] == ps[f];
      }
    } else {
      FindHolderSameHolders(ps1, ps, hd);
      FindHolderSameHolders(ps1, ps, p.holder);
    }
    assert EntryTitles(ps1, hd) == EntryTitles(ps, hd);
    var e := ps1[at];
    assert forall k :: 0 <= k < |e.subjects| ==> |e.subjects[k].parcial| == |sems|;
    var ss := PostSubject(e.subjects, p.nom, SlotOf(sems, p.term), p.hours, |sems|);
    var r := ps1[at := Professor(e.holder, e.carrera, ss)];
    assert Post(ps, career, sems, p) == r;
    FindHolderSameHolders(r, ps1, hd);
    if hd == p.holder {
      PostSubjectTitles(e.subjects, p.nom, SlotOf(sems, p.term), p.hours, |sems|);
    }
  }

  /**
   * Each holder's entry has one bucket per distinct title of that holder's
   * records, in the order the titles are first seen.
   */
  lemma {:induction false} LedgerTitles(ps: seq<Posting>, career: Holder -> string, sems: seq<string>, hd: Holder)
    requires sems != []
    ensures EntryTitles(LedgerOf(ps, career, sems), hd) == Dedup(TitlesFor(ps, hd))
    decreases |ps|
  {
    if ps != [] {
      var init, p := ps[..|ps| - 1], ps[|ps| - 1];
      var prev := LedgerOf(init, career, sems);
      LedgerTitles(init, career, sems, hd);
      LedgerTitlesStep(prev, career, sems, p, hd, TitlesFor(init, hd));
    }
  }

  lemma LedgerTitlesStep(prev: seq<Professor>, career: Holder -> string, sems: seq<string>, p: Posting,
                         hd: Holder, ts: seq<string>)
    requires sems != [] && Shaped(prev, |sems|) && EntryTitles(prev, hd) == Dedup(ts)
    ensures EntryTitles(Post(prev, career, sems, p), hd) == Dedup(ts + (if p.holder == hd then [p.nom] else []))
  {
    PostTitles(prev, career, sems, p, hd);
    if p.holder == hd {
      DedupSnoc(ts, p.nom);
    } else {
      assert ts + [] == ts;
    }
  }

  lemma DedupSnoc(xs: seq<string>, x: string)
    ensures Dedup(xs + [x]) == Dedup(xs) + (if x in xs then [] else [x])
  {
    assert (xs + [x])[..|xs|] == xs;
  }

  // ---------------------------------------------------------------------------
  // Careers

  /**
   * Every entry carries its holder's career: the holder determines the lookup,
   * so the `"desconocido"` upgrade of a later record never finds a different one.
   */
  lemma {:induction false} LedgerCareers(ps: seq<Posting>, career: Holder -> string, sems: seq<string>)
    requires sems != []
    ensures forall i :: 0 <= i < |LedgerOf(ps, career, sems)| ==>
      LedgerOf(ps, career, sems)[i].carrera == career(LedgerOf(ps, career, sems)[i].holder)
    decreases |ps|
  {
    if ps != [] {
      var init := ps[..|ps| - 1];
      LedgerCareers(init, career, sems);
    }
  }

  /** One step changes a holder's career only from "desconocido" to a known one. */
  lemma PostCareer(ps: seq<Professor>, career: Holder -> string, sems: seq<string>, p: Posting, i: int)
    requires sems != [] && Shaped(ps, |sems|) && 0 <= i < |ps|
    ensures Post(ps, career, sems, p)[i].holder == ps[i].holder
    ensures Post(ps, career, sems, p)[i].carrera == ps[i].carrera ||
            (ps[i].carrera == Unknown && Post(ps, career, sems, p)[i].carrera != Unknown)
  {
  }

  // ---------------------------------------------------------------------------
  // Hour conservation

  /** The first entry of a sequence extended at the end. */
  lemma FindHolderAppend(ps: seq<Professor>, e: Professor, hd: Holder)
    ensures FindHolder(ps + [e], hd)
            == if FindHolder(ps, hd) >= 0 then FindHolder(ps, hd) else if e.holder == hd then |ps| else -1
  {
    var r := ps + [e];
    var i, k := FindHolder(ps, hd), FindHolder(r, hd);
    if i >= 0 {
      assert r[i] == ps[i];
    }
    if 0 <= k < |ps| {
      assert r[k] == ps[k];
    }
    if e.holder == hd {
      assert r[|ps|].holder == hd;
    }
  }

  /** Lookups only see the holders. */
  lemma FindHolderSameHolders(a: seq<Professor>, b: seq<Professor>, hd: Holder)
    requires |a| == |b| && forall j :: 0 <= j < |a| ==> a[j].holder == b[j].holder
    ensures FindHolder(a, hd) == FindHolder(b, hd)
  {
    var i, j := FindHolder(a, hd), FindHolder(b, hd);
    if i >= 0 {
      assert b[i].holder == hd;
    }
    if j >= 0 {
      assert a[j].holder == hd;
    }
  }

  lemma FindSubjectAppend(ss: seq<Subject>, x: Subject, t: string)
    ensures FindSubject(ss + [x], t)
            == if FindSubject(ss, t) >= 0 then FindSubject(ss, t) else if x.nom == t then |ss| else -1
  {
    var r := ss + [x];
    var i, k := FindSubject(ss, t), FindSubject(r, t);
    if i >= 0 {
      assert r[i] == ss[i];
    }
    if 0 <= k < |ss| {
      assert r[k] == ss[k];
    }
    if x.nom == t {
      assert r[|ss|].nom == t;
    }
  }

  lemma FindSubjectSameTitles(a: seq<Subject>, b: seq<Subject>, t: string)
    requires |a| == |b| && forall j :: 0 <= j < |a| ==> a[j].nom == b[j].nom
    ensures FindSubject(a, t) == FindSubject(b, t)
  {
    var i, j := FindSubject(a, t), FindSubject(b, t);
    if i >= 0 {
      assert b[i].nom == t;
    }
    if j >= 0 {
      assert a[j].nom == t;
    }
  }

  /** The slot s of a title's bucket, or no hours when there is no such bucket. */
  function Bucket(ss: seq<Subject>, t: string, s: nat): Slot {
    var k := FindSubject(ss, t);
    if k < 0 || s >= |ss[k].parcial| then NoHours else ss[k].parcial[s]
  }

  /** The slot of (holder, title, semester), or no hours when the ledger has no such bucket. */
  function Cell(ps: seq<Professor>, hd: Holder, nom: string, s: nat): Slot {
    var i := FindHolder(ps, hd);
    if i < 0 then NoHours else Bucket(ps[i].subjects, nom, s)
  }

  /** The hours of the records of one holder and title whose label lands in slot s, added in record order. */
  function Tally(ps: seq<Posting>, sems: seq<string>, hd: Holder, nom: string, s: nat): Slot
    decreases |ps|
  {
    if ps == [] then NoHours
    else
      var p := ps[|ps| - 1];
      var t := Tally(ps[..|ps| - 1], sems, hd, nom, s);
      if p.holder == hd && p.nom == nom && SlotOf(sems, p.term) == s then AddSlot(t, p.hours) else t
  }

  /** One title list step: the record's slot grows by its hours, every other slot stays. */
  lemma PostSubjectBucket(ss: seq<Subject>, nom: string, idx: nat, hours: Slot, n: nat, t: string, s: nat)
    requires idx < n && s < n && forall k :: 0 <= k < |ss| ==> |ss[k].parcial| == n
    ensures Bucket(PostSubject(ss, nom, idx, hours, n), t, s)
            == if t == nom && s == idx then AddSlot(Bucket(ss, t, s), hours) else Bucket(ss, t, s)
  {
    var k := FindSubject(ss, nom);
    var ss1 := if k < 0 then ss + [Subject(nom, Zeros(n))] else ss;
    var at := if k < 0 then |ss| else k;
    if k < 0 {
      BucketAppend(ss, Subject(nom, Zeros(n)), t, s);
      FindSubjectAppend(ss, Subject(nom, Zeros(n)), nom);
    }
    assert Bucket(ss1, t, s) == Bucket(ss, t, s);
    assert FindSubject(ss1, nom) == at;
    var x := ss1[at];
    assert |x.parcial| == n;
    var x' := Subject(x.nom, x.parcial[idx := AddSlot(x.parcial[idx], hours)]);
    assert PostSubject(ss, nom, idx, hours, n) == ss1[at := x'];
    BucketUpdate(ss1, at, x', t, s);
  }

  /** A lookup after a bucket is replaced by one with the same title. */
  lemma BucketUpdate(ss: seq<Subject>, at: int, x: Subject, t: string, s: nat)
    requires 0 <= at < |ss| && x.nom == ss[at].nom
    ensures Bucket(ss[at := x], t, s)
            == if FindSubject(ss, t) == at then (if s < |x.parcial| then x.parcial[s] else NoHours)
               else Bucket(ss, t, s)
  {
    FindSubjectSameTitles(ss[at := x], ss, t);
  }

  /** A lookup after a bucket of zeros is added at the end. */
  lemma BucketAppend(ss: seq<Subject>, x: Subject, t: string, s: nat)
    requires forall j :: 0 <= j < |x.parcial| ==> x.parcial[j] == NoHours
    ensures Bucket(ss + [x], t, s) == Bucket(ss, t, s)
  {
    FindSubjectAppend(ss, x, t);
    var k := FindSubject(ss, t);
    if k >= 0 {
      assert (ss + [x])[k] == ss[k];
    }
  }

  /** One step: the record's cell grows by its hours, every other cell stays. */
  lemma PostCell(ps: seq<Professor>, career: Holder -> string, sems: seq<string>, p: Posting,
                 hd: Holder, nom: string, s: nat)
    requires sems != [] && Shaped(ps, |sems|) && s < |sems|
    ensures Cell(Post(ps, career, sems, p), hd, nom, s)
            == if p.holder == hd && p.nom == nom && SlotOf(sems, p.term) == s
               then AddSlot(Cell(ps, hd, nom, s), p.hours) else Cell(ps, hd, nom, s)
  {
    var c := career(p.holder);
    var i := FindHolder(ps, p.holder);
    var ps1 := if i < 0 then ps + [Professor(p.holder, c, [])]
               else ps[i := Professor(ps[i].holder, Upgrade(ps[i].carrera, c), ps[i].subjects)];
    var at := if i < 0 then |ps| else i;
    if i < 0 {
      CellAppend(ps, Professor(p.holder, c, []), hd, nom, s);
      FindHolderAppend(ps, Professor(p.holder, c, []), p.holder);
    } else {
      CellUpdate(ps, i, Professor(ps[i].holder, Upgrade(ps[i].carrera, c), ps[i].subjects), hd, nom, s);
      FindHolderSameHolders(ps1, ps, p.holder);
    }
    assert Cell(ps1, hd, nom, s) == Cell(ps, hd, nom, s);
    assert FindHolder(ps1, p.holder) == at;
    var e := ps1[at];
    var ss := PostSubject(e.subjects, p.nom, SlotOf(sems, p.term), p.hours, |sems|);
    assert Post(ps, career, sems, p) == ps1[at := Professor(e.holder, e.carrera, ss)];
    CellUpdate(ps1, at, Professor(e.holder, e.carrera, ss), hd, nom, s);
    if hd == p.holder {
      assert forall k :: 0 <= k < |e.subjects| ==> |e.subjects[k].parcial| == |sems|;
      PostSubjectBucket(e.subjects, p.nom, SlotOf(sems, p.term), p.hours, |sems|, nom, s);
    }
  }

  /** A lookup after an entry is replaced by one with the same holder. */
  lemma CellUpdate(ps: seq<Professor>, at: int, e: Professor, hd: Holder, nom: string, s: nat)
    requires 0 <= at < |ps| && e.holder == ps[at].holder
    ensures FindHolder(ps[at := e], hd) == FindHolder(ps, hd)
    ensures Cell(ps[at := e], hd, nom, s)
            == if FindHolder(ps, hd) == at then Bucket(e.subjects, nom, s) else Cell(ps, hd, nom, s)
  {
    FindHolderSameHolders(ps[at := e], ps, hd);
  }

  /** A lookup after an entry is added at the end. */
  lemma CellAppend(ps: seq<Professor>, e: Professor, hd: Holder, nom: string, s: nat)
    requires e.subjects == []
    ensures Cell(ps + [e], hd, nom, s) == Cell(ps, hd, nom, s)
  {
    FindHolderAppend(ps, e, hd);
    var i := FindHolder(ps, hd);
    if i >= 0 {
      assert (ps + [e])[i] == ps[i];
    }
  }

  /**
   * No hours are lost or invented: the slot of every (holder, title, semester)
   * holds the `toInt` hours of exactly the records of that holder and title whose
   * semester label selects the slot (an unlisted label selects the first).
   */
  lemma {:induction false} LedgerConserves(ps: seq<Posting>, career: Holder -> string, sems: seq<string>,
                                           hd: Holder, nom: string, s: nat)
    requires sems != [] && s < |sems|
    ensures Cell(LedgerOf(ps, career, sems), hd, nom, s) == Tally(ps, sems, hd, nom, s)
    decreases |ps|
  {
    if ps != [] {
      var init := ps[..|ps| - 1];
      LedgerConserves(init, career, sems, hd, nom, s);
      PostCell(LedgerOf(init, career, sems), career, sems, ps[|ps| - 1], hd, nom, s);
    }
  }
  /** A slot no record selects stays at zero. */
  lemma {:induction false} TallyUntouched(ps: seq<Posting>, sems: seq<string>, hd: Holder, nom: string, s: nat)
    requires forall i :: 0 <= i < |ps| ==> !(ps[i].holder == hd && ps[i].nom == nom && SlotOf(sems, ps[i].term) == s)
    ensures Tally(ps, sems, hd, nom, s) == NoHours
    decreases |ps|
  {
    if ps != [] {
      TallyUntouched(ps[..|ps| - 1], sems, hd, nom, s);
    }
  }

  /** With whole-number hours the slot holds their exact sum. */
  lemma {:induction false} TallyFinite(ps: seq<Posting>, sems: seq<string>, hd: Holder, nom: string, s: nat)
    requires forall i :: 0 <= i < |ps| ==> ps[i].hours.0.Finite? && ps[i].hours.1.Finite?
    ensures Tally(ps, sems, hd, nom, s).0.Finite? && Tally(ps, sems, hd, nom, s).1.Finite?
    decreases |ps|
  {
    if ps != [] {
      TallyFinite(ps[..|ps| - 1], sems, hd, nom, s);
    }
  }
}

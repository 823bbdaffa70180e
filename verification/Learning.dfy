/**
 The student's side of `learning.service.ts`: the curriculum tree, the progress summary and `markComplete`, over the
 tables they read.
 */
module Learning {
  import opened Wrappers
  import opened Counting
  import Scoring

  datatype Cert = Cert(id: nat, active: bool)

  datatype Module = Module(id: nat, certId: nat, position: int, createdAt: int, active: bool)

  datatype Lesson = Lesson(id: nat, moduleId: nat, position: int, createdAt: int, active: bool)

  /** Progress gives the time at which a user completed a lesson; the pair is unique. */
  datatype Tables = Tables(
    certs: seq<Cert>, modules: seq<Module>, lessons: seq<Lesson>, purchases: set<(nat, nat)>,
    progress: map<(nat, nat), int>)

  /** Primary keys. */
  predicate Keyed(t: Tables) {
    && (forall i, j :: 0 <= i < j < |t.certs| ==> t.certs[i].id != t.certs[j].id)
    && (forall i, j :: 0 <= i < j < |t.modules| ==> t.modules[i].id != t.modules[j].id)
    && (forall i, j :: 0 <= i < j < |t.lessons| ==> t.lessons[i].id != t.lessons[j].id)
  }

  datatype Error = NotFound | Forbidden

  function Ids(ms: seq<Module>): set<nat> {
    set m | m in ms :: m.id
  }

  // ---- The two views -------------------------------------------------------------------------------------

  /** The rows that meet a condition, in whatever order the database returns them. */
  ghost predicate Lists<T>(rows: seq<T>, table: seq<T>, where_: T -> bool) {
    multiset(rows) == multiset(Filter(table, where_))
  }

  datatype LessonView = LessonView(id: nat, position: int, completed: bool)

  datatype ModuleView = ModuleView(id: nat, position: int, lessons: seq<LessonView>)

  function View(l: Lesson, done: set<nat>): LessonView {
    LessonView(l.id, l.position, l.id in done)
  }

  function Views(ls: seq<Lesson>, done: set<nat>): seq<LessonView> {
    if ls == [] then [] else [View(ls[0], done)] + Views(ls[1..], done)
  }

  /** The modules with their lessons, as `getCurriculum` puts them together. */
  function Tree(ms: seq<Module>, ls: seq<Lesson>, done: set<nat>): seq<ModuleView> {
    if ms == [] then []
    else
      var m := ms[0];
      [ModuleView(m.id, m.position, Views(Filter(ls, Under({m.id})), done))]
      + Tree(ms[1..], ls, done)
  }

  function DoneBy(t: Tables, user: nat): set<nat> {
    set key | key in t.progress && key.0 == user :: key.1
  }

  function BoughtBy(t: Tables, user: nat): set<nat> {
    set key | key in t.purchases && key.0 == user :: key.1
  }

  function ActiveOf(certIds: set<nat>): Module -> bool {
    (m: Module) => m.certId in certIds && m.active
  }

  function Under(moduleIds: set<nat>): Lesson -> bool {
    (l: Lesson) => l.moduleId in moduleIds
  }

  function ActiveUnder(moduleIds: set<nat>): Lesson -> bool {
    (l: Lesson) => l.active && l.moduleId in moduleIds
  }

  /** `getCurriculum`, given what the two queries return. */
  function GetCurriculum(t: Tables, user: nat, certId: nat, ms: seq<Module>, ls: seq<Lesson>)
    : Result<seq<ModuleView>, Error>
  {
    if Cert(certId, true) !in t.certs then Err(NotFound)
    else if (user, certId) !in t.purchases then Err(Forbidden)
    else Ok(Tree(ms, ls, DoneBy(t, user)))
  }

  ghost predicate CurriculumQueries(t: Tables, certId: nat, ms: seq<Module>, ls: seq<Lesson>) {
    && Lists(ms, t.modules, ActiveOf({certId}))
    && Lists(ls, t.lessons, ActiveUnder(Ids(ms)))
  }

  datatype SummaryRow = SummaryRow(certId: nat, totalLessons: nat, completedLessons: nat, percentComplete: int)

  function Percent(completed: nat, total: nat): int {
    if total == 0 then 0 else Scoring.Rounded(100 * completed, total)
  }

  /** One entry of `getProgressSummary`, given what its queries return for all purchases of the user. */
  function Summarize(certId: nat, ms: seq<Module>, ls: seq<Lesson>, done: set<nat>): SummaryRow {
    var moduleIds := Ids(Filter(ms, (m: Module) => m.certId == certId));
    var lessons := Filter(ls, Under(moduleIds));
    var completed := |Filter(lessons, (l: Lesson) => l.id in done)|;
    SummaryRow(certId, |lessons|, completed, Percent(completed, |lessons|))
  }

  /** `getProgressSummary`; `cs` is what the query for the certificates of all purchases returns. */
  function GetProgressSummary(t: Tables, user: nat, cs: seq<Cert>, ms: seq<Module>, ls: seq<Lesson>): seq<SummaryRow> {
    if BoughtBy(t, user) == {} then [] else Entries(cs, ms, ls, DoneBy(t, user))
  }

  function Entries(cs: seq<Cert>, ms: seq<Module>, ls: seq<Lesson>, done: set<nat>): (rows: seq<SummaryRow>)
    ensures |rows| == |cs| && forall i :: 0 <= i < |cs| ==> rows[i] == Summarize(cs[i].id, ms, ls, done)
  {
    if cs == [] then [] else [Summarize(cs[0].id, ms, ls, done)] + Entries(cs[1..], ms, ls, done)
  }

  function BoughtCert(t: Tables, user: nat): Cert -> bool {
    (c: Cert) => c.id in BoughtBy(t, user)
  }

  ghost predicate SummaryQueries(t: Tables, user: nat, ms: seq<Module>, ls: seq<Lesson>) {
    && Lists(ms, t.modules, ActiveOf(BoughtBy(t, user)))
    && Lists(ls, t.lessons, ActiveUnder(Ids(ms)))
  }

  // ---- What both of them count ---------------------------------------------------------------------------

  /** An active lesson of an active module of the certificate. */
  ghost predicate Belongs(t: Tables, certId: nat, l: Lesson) {
    l.active && exists m :: m in t.modules && m.active && m.certId == certId && m.id == l.moduleId
  }

  ghost function BelongsTo(t: Tables, certId: nat): Lesson -> bool {
    (l: Lesson) => Belongs(t, certId, l)
  }

  /** A weight over all such lessons of the table. */
  ghost function Counted(t: Tables, certId: nat, weight: Lesson -> nat): nat {
    Count(t.lessons, Where(BelongsTo(t, certId), weight))
  }

  function InTree(tree: seq<ModuleView>, weight: LessonView -> nat): nat {
    Count(tree, (m: ModuleView) => Count(m.lessons, weight))
  }

  function Shown(done: set<nat>, weight: LessonView -> nat): Lesson -> nat {
    l => weight(View(l, done))
  }

  lemma {:induction false} ViewsCount(ls: seq<Lesson>, done: set<nat>, weight: LessonView -> nat)
    ensures Count(Views(ls, done), weight) == Count(ls, Shown(done, weight))
  {
    if ls == [] {
    } else {
      ViewsCount(ls[1..], done, weight);
    }
  }

  /** Each lesson is shown under one module, when no two modules have the same id. */
  lemma {:induction false} TreeCounts(ms: seq<Module>, ls: seq<Lesson>, done: set<nat>, weight: LessonView -> nat)
    requires forall i, j :: 0 <= i < j < |ms| ==> ms[i].id != ms[j].id
    ensures InTree(Tree(ms, ls, done), weight) == Count(ls, Where(Under(Ids(ms)), Shown(done, weight)))
  {
    var all := Where(Under(Ids(ms)), Shown(done, weight));
    if ms == [] {
      CountNothing(ls, all);
    } else {
      var first, later := Under({ms[0].id}), Under(Ids(ms[1..]));
      TreeCounts(ms[1..], ls, done, weight);
      ViewsCount(Filter(ls, first), done, weight);
      CountFilter(ls, first, Shown(done, weight));
      IdsApart(ms);
      CountSum(ls, Where(first, Shown(done, weight)), Where(later, Shown(done, weight)), all);
      assert Tree(ms, ls, done)[0].lessons == Views(Filter(ls, first), done);
    }
  }

  lemma IdsApart(ms: seq<Module>)
    requires ms != [] && forall i, j :: 0 <= i < j < |ms| ==> ms[i].id != ms[j].id
    ensures ms[0].id !in Ids(ms[1..]) && Ids(ms) == {ms[0].id} + Ids(ms[1..])
  {
  }

  function HasId(id: nat): Module -> nat {
    (m: Module) => if m.id == id then 1 else 0
  }

  lemma {:induction false} KeyCountsOnce(ms: seq<Module>, id: nat)
    requires forall i, j :: 0 <= i < j < |ms| ==> ms[i].id != ms[j].id
    ensures Count(ms, HasId(id)) <= 1
  {
    if ms == [] {
    } else {
      if ms[0].id == id {
        CountNothing(ms[1..], HasId(id));
      } else {
        KeyCountsOnce(ms[1..], id);
      }
    }
  }

  /** A query returns a row once, so the ids in its result are distinct too. */
  lemma ListedOnce(t: Tables, ms: seq<Module>, where_: Module -> bool, i: nat, j: nat)
    requires Keyed(t) && Lists(ms, t.modules, where_) && i < j < |ms|
    ensures ms[i].id != ms[j].id
  {
    var w := HasId(ms[i].id);
    var no := (m: Module) => !where_(m);
    CountPermuted(ms, Filter(t.modules, where_), w);
    CountFilter(t.modules, where_, w);
    CountSum(t.modules, Where(where_, w), Where(no, w), w);
    KeyCountsOnce(t.modules, ms[i].id);
    CountTwo(ms, i, j, w);
  }

  lemma ListedExactly<T>(rows: seq<T>, table: seq<T>, where_: T -> bool, x: T)
    requires Lists(rows, table, where_)
    ensures x in rows <==> x in table && where_(x)
  {
    assert x in rows <==> x in multiset(rows);
    assert x in multiset(Filter(table, where_)) <==> x in Filter(table, where_);
    FilterKeeps(table, where_);
  }

  /** The ids that a listing of modules offers are those of the modules it asks for. */
  lemma ListedIds(t: Tables, ms: seq<Module>, certIds: set<nat>, l: Lesson, certId: nat)
    requires Lists(ms, t.modules, ActiveOf(certIds)) && certId in certIds
    ensures l.active && (exists m :: m in ms && m.certId == certId && m.id == l.moduleId) <==> Belongs(t, certId, l)
  {
    forall m: Module
      ensures m in ms <==> m in t.modules && ActiveOf(certIds)(m)
    {
      ListedExactly(ms, t.modules, ActiveOf(certIds), m);
    }
  }

  /** Counting over listed lessons is counting over the table. */
  lemma ListedCount(
      t: Tables, ls: seq<Lesson>, where_: Lesson -> bool, pick: Lesson -> bool, certId: nat, weight: Lesson -> nat)
    requires Lists(ls, t.lessons, where_)
    requires forall l :: where_(l) && pick(l) <==> Belongs(t, certId, l)
    ensures Count(ls, Where(pick, weight)) == Counted(t, certId, weight)
  {
    CountPermuted(ls, Filter(t.lessons, where_), Where(pick, weight));
    CountFilter(t.lessons, where_, Where(pick, weight));
    CountSame(t.lessons, Where(where_, Where(pick, weight)), Where(BelongsTo(t, certId), weight));
  }

  /** Whatever is counted over the tree is counted over the lessons that belong to the certificate, once each. */
  lemma CurriculumCounts(
      t: Tables, user: nat, certId: nat, ms: seq<Module>, ls: seq<Lesson>, weight: LessonView -> nat)
    requires Keyed(t) && CurriculumQueries(t, certId, ms, ls) && GetCurriculum(t, user, certId, ms, ls).Ok?
    ensures InTree(GetCurriculum(t, user, certId, ms, ls).value, weight)
         == Counted(t, certId, Shown(DoneBy(t, user), weight))
  {
    forall i, j | 0 <= i < j < |ms|
      ensures ms[i].id != ms[j].id
    {
      ListedOnce(t, ms, ActiveOf({certId}), i, j);
    }
    TreeCounts(ms, ls, DoneBy(t, user), weight);
    forall l: Lesson
      ensures ActiveUnder(Ids(ms))(l) && Under(Ids(ms))(l) <==> Belongs(t, certId, l)
    {
      ListedIds(t, ms, {certId}, l, certId);
      assert forall m :: m in ms ==> m.certId == certId by {
        forall m | m in ms
          ensures m.certId == certId
        {
          ListedExactly(ms, t.modules, ActiveOf({certId}), m);
        }
      }
    }
    ListedCount(t, ls, ActiveUnder(Ids(ms)), Under(Ids(ms)), certId, Shown(DoneBy(t, user), weight));
  }

  /** The same for the lessons that an entry of the summary picks. */
  lemma SummaryCounts(
      t: Tables, user: nat, certId: nat, ms: seq<Module>, ls: seq<Lesson>, weight: Lesson -> nat)
    requires SummaryQueries(t, user, ms, ls) && (user, certId) in t.purchases
    ensures Count(Filter(ls, Under(Ids(Filter(ms, (m: Module) => m.certId == certId)))), weight)
         == Counted(t, certId, weight)
  {
    var own := (m: Module) => m.certId == certId;
    var picked := Ids(Filter(ms, own));
    CountFilter(ls, Under(picked), weight);
    forall l: Lesson
      ensures ActiveUnder(Ids(ms))(l) && Under(picked)(l) <==> Belongs(t, certId, l)
    {
      ListedIds(t, ms, BoughtBy(t, user), l, certId);
      FilterKeeps(ms, own);
    }
    ListedCount(t, ls, ActiveUnder(Ids(ms)), Under(picked), certId, weight);
  }

  // ---- The two views agree -------------------------------------------------------------------------------

  function Each(): LessonView -> nat {
    (v: LessonView) => 1
  }

  function Completed(): LessonView -> nat {
    (v: LessonView) => if v.completed then 1 else 0
  }

  function Named(id: nat): LessonView -> nat {
    (v: LessonView) => if v.id == id then 1 else 0
  }

  /** An entry of the summary counts the lessons that belong to the certificate, and those of them that are done. */
  lemma RowCounts(t: Tables, user: nat, certId: nat, ms: seq<Module>, ls: seq<Lesson>)
    requires SummaryQueries(t, user, ms, ls) && (user, certId) in t.purchases
    ensures var row := Summarize(certId, ms, ls, DoneBy(t, user));
            && row.totalLessons == Counted(t, certId, Shown(DoneBy(t, user), Each()))
            && row.completedLessons == Counted(t, certId, Shown(DoneBy(t, user), Completed()))
  {
    var done := DoneBy(t, user);
    var picked := Filter(ls, Under(Ids(Filter(ms, (m: Module) => m.certId == certId))));
    var isDone := (l: Lesson) => l.id in done;
    SummaryCounts(t, user, certId, ms, ls, Shown(done, Each()));
    SummaryCounts(t, user, certId, ms, ls, Shown(done, Completed()));
    LengthCounts(picked, Shown(done, Each()));
    LengthCounts(Filter(picked, isDone), Shown(done, Each()));
    CountFilter(picked, isDone, Shown(done, Each()));
    forall l | l in picked
      ensures Where(isDone, Shown(done, Each()))(l) == Shown(done, Completed())(l)
    {
      assert View(l, done).completed == isDone(l);
    }
    CountSame(picked, Where(isDone, Shown(done, Each())), Shown(done, Completed()));
  }

  lemma LengthCounts(ls: seq<Lesson>, weight: Lesson -> nat)
    requires forall l :: weight(l) == 1
    ensures |ls| == Count(ls, weight)
  {
    CountLength(ls);
    CountSame(ls, x => 1, weight);
  }

  lemma NamedCount(t: Tables, certId: nat, l: Lesson, done: set<nat>)
    requires Keyed(t) && l in t.lessons
    ensures Counted(t, certId, Shown(done, Named(l.id))) == if Belongs(t, certId, l) then 1 else 0
  {
    var weight := Where(BelongsTo(t, certId), Shown(done, Named(l.id)));
    var i :| 0 <= i < |t.lessons| && t.lessons[i] == l;
    forall j | 0 <= j < |t.lessons| && j != i
      ensures weight(t.lessons[j]) == 0
    {
      assert View(t.lessons[j], done).id != l.id by {
        assert j < i || i < j;
      }
    }
    CountOnly(t.lessons, i, weight);
    assert View(l, done).id == l.id;
  }

  /** The tree shows each active lesson of an active module once, and no other lesson. */
  lemma EachLessonOnce(t: Tables, user: nat, certId: nat, ms: seq<Module>, ls: seq<Lesson>, l: Lesson)
    requires Keyed(t) && CurriculumQueries(t, certId, ms, ls) && GetCurriculum(t, user, certId, ms, ls).Ok?
    requires l in t.lessons
    ensures InTree(GetCurriculum(t, user, certId, ms, ls).value, Named(l.id)) == if Belongs(t, certId, l) then 1 else 0
  {
    CurriculumCounts(t, user, certId, ms, ls, Named(l.id));
    NamedCount(t, certId, l, DoneBy(t, user));
  }

  // ---- Which certificates the two views have -------------------------------------------------------------

  predicate Listed(rows: seq<SummaryRow>, certId: nat) {
    exists row :: row in rows && row.certId == certId
  }

  /** The summary has an entry for a certificate exactly when the user has bought it, active or not. */
  lemma SummaryListsPurchases(t: Tables, user: nat, c: Cert, cs: seq<Cert>, ms: seq<Module>, ls: seq<Lesson>)
    requires c in t.certs && Lists(cs, t.certs, BoughtCert(t, user))
    ensures Listed(GetProgressSummary(t, user, cs, ms, ls), c.id)
       <==> (user, c.id) in t.purchases
  {
    var rows := GetProgressSummary(t, user, cs, ms, ls);
    if (user, c.id) in t.purchases {
      assert c.id in BoughtBy(t, user);
      ListedExactly(cs, t.certs, BoughtCert(t, user), c);
      var i :| 0 <= i < |cs| && cs[i] == c;
      assert rows[i] in rows && rows[i].certId == c.id;
    } else if row :| row in rows && row.certId == c.id {
      var i :| 0 <= i < |rows| && rows[i] == row;
      ListedExactly(cs, t.certs, BoughtCert(t, user), cs[i]);
    }
  }

  /** The entry of a served certificate is in the summary, and counts the lessons and completions of its tree. */
  lemma ViewsAgree(
      t: Tables, user: nat, certId: nat, ms: seq<Module>, ls: seq<Lesson>, cs: seq<Cert>, allMs: seq<Module>,
      allLs: seq<Lesson>)
    requires Keyed(t) && CurriculumQueries(t, certId, ms, ls)
    requires Lists(cs, t.certs, BoughtCert(t, user)) && SummaryQueries(t, user, allMs, allLs)
    requires GetCurriculum(t, user, certId, ms, ls).Ok?
    ensures Listed(GetProgressSummary(t, user, cs, allMs, allLs), certId)
    ensures forall row :: row in GetProgressSummary(t, user, cs, allMs, allLs) && row.certId == certId ==>
              var tree := GetCurriculum(t, user, certId, ms, ls).value;
              && row.totalLessons == InTree(tree, Each()) && row.completedLessons == InTree(tree, Completed())
              && row.percentComplete == Percent(InTree(tree, Completed()), InTree(tree, Each()))
  {
    CurriculumCounts(t, user, certId, ms, ls, Each());
    CurriculumCounts(t, user, certId, ms, ls, Completed());
    RowCounts(t, user, certId, allMs, allLs);
    SummaryListsPurchases(t, user, Cert(certId, true), cs, allMs, allLs);
    forall row | row in GetProgressSummary(t, user, cs, allMs, allLs) && row.certId == certId
      ensures row == Summarize(certId, allMs, allLs, DoneBy(t, user))
    {
      var rows := GetProgressSummary(t, user, cs, allMs, allLs);
      var i :| 0 <= i < |rows| && rows[i] == row;
    }
  }

  /** The tree of a certificate that the user has bought is served exactly when the certificate is active. */
  lemma CurriculumNeedsActive(t: Tables, user: nat, c: Cert, ms: seq<Module>, ls: seq<Lesson>)
    requires Keyed(t) && c in t.certs && (user, c.id) in t.purchases
    ensures GetCurriculum(t, user, c.id, ms, ls).Ok? <==> c.active
    ensures !c.active ==> GetCurriculum(t, user, c.id, ms, ls) == Err(NotFound)
  {
    if Cert(c.id, true) in t.certs {
      var i :| 0 <= i < |t.certs| && t.certs[i] == c;
      var j :| 0 <= j < |t.certs| && t.certs[j] == Cert(c.id, true);
      assert i == j || i < j || j < i;
    }
  }

  /** Who is served what. */
  lemma CurriculumAccess(t: Tables, user: nat, certId: nat, ms: seq<Module>, ls: seq<Lesson>)
    ensures var r := GetCurriculum(t, user, certId, ms, ls);
      && (r == Err(NotFound) <==> forall c :: c in t.certs && c.id == certId ==> !c.active)
      && (r == Err(Forbidden) <==>
            (exists c :: c in t.certs && c.id == certId && c.active) && (user, certId) !in t.purchases)
      && (r.Ok? <==> (exists c :: c in t.certs && c.id == certId && c.active) && (user, certId) in t.purchases)
  {
    assert forall c :: c in t.certs && c.id == certId && c.active ==> c == Cert(certId, true);
  }

  /** The two views have the same certificates exactly when no purchased one is inactive. */
  lemma SameCertificatesExactly(t: Tables, user: nat, cs: seq<Cert>, ms: seq<Module>, ls: seq<Lesson>)
    requires Keyed(t) && Lists(cs, t.certs, BoughtCert(t, user))
    ensures (forall c :: c in t.certs ==>
               (Listed(GetProgressSummary(t, user, cs, ms, ls), c.id) <==> GetCurriculum(t, user, c.id, [], []).Ok?))
       <==> forall c :: c in t.certs && (user, c.id) in t.purchases ==> c.active
  {
    forall c | c in t.certs
      ensures Listed(GetProgressSummary(t, user, cs, ms, ls), c.id) <==> (user, c.id) in t.purchases
      ensures GetCurriculum(t, user, c.id, [], []).Ok? <==> (user, c.id) in t.purchases && c.active
    {
      SummaryListsPurchases(t, user, c, cs, ms, ls);
      if (user, c.id) in t.purchases {
        CurriculumNeedsActive(t, user, c, [], []);
      }
    }
  }

  /** Here is one that is. */
  lemma ListedButNotServed(user: nat, certId: nat)
    ensures var t := Tables([Cert(certId, false)], [], [], {(user, certId)}, map[]);
            && Keyed(t) && Lists(t.certs, t.certs, BoughtCert(t, user))
            && GetCurriculum(t, user, certId, [], []) == Err(NotFound)
            && GetProgressSummary(t, user, t.certs, [], []) == [SummaryRow(certId, 0, 0, 0)]
  {
    var t := Tables([Cert(certId, false)], [], [], {(user, certId)}, map[]);
    assert (user, certId) in t.purchases;
    assert certId in BoughtBy(t, user);
    assert t.certs[1..] == [];
    assert Filter(t.certs, BoughtCert(t, user)) == t.certs;
  }

  /** Each module shows, under its own id and position, the lessons that name it, and no others. */
  lemma {:induction false} TreeShows(ms: seq<Module>, ls: seq<Lesson>, done: set<nat>, i: nat)
    requires i < |ms|
    ensures |Tree(ms, ls, done)| == |ms|
    ensures var m := Tree(ms, ls, done)[i];
      && m.id == ms[i].id && m.position == ms[i].position
      && forall v :: v in m.lessons <==>
           exists l :: l in ls && l.moduleId == ms[i].id && v == LessonView(l.id, l.position, l.id in done)
    decreases |ms|
  {
    if i == 0 {
      TreeLength(ms, ls, done);
      FilterKeeps(ls, Under({ms[0].id}));
      ViewsShow(Filter(ls, Under({ms[0].id})), done);
    } else {
      TreeShows(ms[1..], ls, done, i - 1);
    }
  }

  lemma {:induction false} TreeLength(ms: seq<Module>, ls: seq<Lesson>, done: set<nat>)
    ensures |Tree(ms, ls, done)| == |ms|
  {
    if ms == [] {
    } else {
      TreeLength(ms[1..], ls, done);
    }
  }

  lemma {:induction false} ViewsShow(ls: seq<Lesson>, done: set<nat>)
    ensures forall v :: v in Views(ls, done) <==>
              exists l :: l in ls && v == LessonView(l.id, l.position, l.id in done)
  {
    if ls == [] {
    } else {
      ViewsShow(ls[1..], done);
    }
  }

  lemma DoneExactly(t: Tables, user: nat, lessonId: nat)
    ensures lessonId in DoneBy(t, user) <==> (user, lessonId) in t.progress
  {
    if (user, lessonId) in t.progress {
      assert (user, lessonId).1 in DoneBy(t, user);
    }
  }

  /** The served tree, in terms of the tables: a lesson is shown as completed exactly when there is progress for it. */
  lemma CurriculumShows(t: Tables, user: nat, certId: nat, ms: seq<Module>, ls: seq<Lesson>, i: nat)
    requires GetCurriculum(t, user, certId, ms, ls).Ok? && i < |ms|
    ensures Cert(certId, true) in t.certs && (user, certId) in t.purchases
    ensures var tree := GetCurriculum(t, user, certId, ms, ls).value;
      && |tree| == |ms| && tree[i].id == ms[i].id && tree[i].position == ms[i].position
      && forall v :: v in tree[i].lessons <==>
           exists l :: l in ls && l.moduleId == ms[i].id
                       && v == LessonView(l.id, l.position, (user, l.id) in t.progress)
  {
    TreeShows(ms, ls, DoneBy(t, user), i);
    forall l
      ensures l in DoneBy(t, user) <==> (user, l) in t.progress
    {
      DoneExactly(t, user, l);
    }
  }

  // ---- When the percentage is 100 ------------------------------------------------------------------------

  /** The percentage is the nearest whole one, a half counting up; a certificate without lessons has none. */
  lemma PercentIsNearest(completed: nat, total: nat)
    ensures total == 0 ==> Percent(completed, total) == 0
    ensures total > 0 ==>
              var percent := Percent(completed, total);
              2 * total * percent <= 200 * completed + total < 2 * total * (percent + 1)
  {
    if total > 0 {
      var percent := Percent(completed, total);
      Scoring.RoundedAtLeast(100 * completed, total, percent);
      Scoring.RoundedAtLeast(100 * completed, total, percent + 1);
    }
  }

  lemma HundredExactly(completed: nat, total: nat)
    requires completed <= total
    ensures Percent(completed, total) == 100 <==> total > 0 && 200 * (total - completed) <= total
  {
    if total > 0 {
      Scoring.RoundedAtLeast(100 * completed, total, 100);
      Scoring.RoundedAtLeast(100 * completed, total, 101);
    }
  }

  /** With fewer than 200 lessons, 100 percent means all of them; with 200 it may mean all but one. */
  lemma HundredMeansAll(completed: nat, total: nat)
    requires completed <= total
    ensures 0 < total < 200 ==> (Percent(completed, total) == 100 <==> completed == total)
    ensures Percent(199, 200) == 100
  {
    HundredExactly(completed, total);
    HundredExactly(199, 200);
  }

  // ---- Completing a lesson -------------------------------------------------------------------------------

  /** A completion is counted once, for the certificate whose active module holds the lesson, if any. */
  lemma CompletionCountsOnce(t: Tables, user: nat, certId: nat, l: Lesson, now: int)
    requires Keyed(t) && l in t.lessons && (user, l.id) !in t.progress
    ensures Counted(Marked(t, user, l.id, now), certId, Shown(DoneBy(t, user) + {l.id}, Completed()))
         == Counted(t, certId, Shown(DoneBy(t, user), Completed())) + if Belongs(t, certId, l) then 1 else 0
    ensures DoneBy(Marked(t, user, l.id, now), user) == DoneBy(t, user) + {l.id}
  {
    var t' := Marked(t, user, l.id, now);
    var done := DoneBy(t, user);
    assert DoneBy(t', user) == done + {l.id} by {
      assert (user, l.id) in t'.progress;
      assert forall key :: key in t.progress ==> key in t'.progress;
    }
    var before := Where(BelongsTo(t, certId), Shown(done, Completed()));
    var after := Where(BelongsTo(t', certId), Shown(done + {l.id}, Completed()));
    var named := Where(BelongsTo(t, certId), Shown(done, Named(l.id)));
    forall x | x in t.lessons
      ensures after(x) == before(x) + named(x)
    {
      assert Belongs(t', certId, x) <==> Belongs(t, certId, x);
      assert View(x, done).completed <==> x.id in done;
      assert View(x, done + {l.id}).completed <==> x.id in done + {l.id};
      assert View(x, done).id == x.id;
    }
    CountSum(t.lessons, before, named, after);
    NamedCount(t, certId, l, done);
  }

  function Marked(t: Tables, user: nat, lesson: nat, now: int): Tables {
    t.(progress := t.progress[(user, lesson) := now])
  }

  datatype Completion = Completion(lessonId: nat, completedAt: int, alreadyCompleted: bool)

  class LearningService {
    var tables: Tables

    constructor (tables: Tables)
      ensures this.tables == tables
    {
      this.tables := tables;
    }

    /**
     The lesson must be active, and its module exist, active or not. The first completion is recorded; marking again
     reports its time and changes nothing.
     */
    method MarkComplete(user: nat, lessonId: nat, now: int) returns (r: Result<Completion, Error>)
      requires Keyed(tables)
      modifies this
      ensures r == Err(NotFound) <==>
                forall l, m :: l in old(tables).lessons && m in old(tables).modules ==>
                                 !(l.id == lessonId && l.active && m.id == l.moduleId)
      ensures forall l, m :: l in old(tables).lessons && m in old(tables).modules ==>
                l.id == lessonId && l.active && m.id == l.moduleId ==>
                  (r == Err(Forbidden) <==> (user, m.certId) !in old(tables).purchases)
      ensures r.Err? ==> tables == old(tables)
      ensures r.Ok? && (user, lessonId) in old(tables).progress
          ==> && r.value == Completion(lessonId, old(tables).progress[(user, lessonId)], true)
              && tables == old(tables)
      ensures r.Ok? && (user, lessonId) !in old(tables).progress
          ==> && r.value == Completion(lessonId, now, false)
              && tables == Marked(old(tables), user, lessonId, now)
              && tables == old(tables).(progress := old(tables).progress[(user, lessonId) := now])
    {
      if l :| l in tables.lessons && l.id == lessonId && l.active {
        if m :| m in tables.modules && m.id == l.moduleId {
          if (user, m.certId) !in tables.purchases {
            return Err(Forbidden);
          }
          var key := (user, lessonId);
          if key in tables.progress {
            return Ok(Completion(lessonId, tables.progress[key], true));
          }
          tables := Marked(tables, user, lessonId, now);
          return Ok(Completion(lessonId, now, false));
        }
      }
      r := Err(NotFound);
    }
  }
}

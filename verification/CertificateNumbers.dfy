/**
 `set_cert_sequence` of the initial schema: every insert into `issued_certificates` draws the next number of its
 program's sequence and writes it, cut or padded to six digits, into the certificate's id.
 */
module CertificateNumbers {
  import opened Wrappers

  // ---- Numbers as text -----------------------------------------------------------------------------------

  function Digits(n: nat): string {
    (if n < 10 then "" else Digits(n / 10)) + [(n % 10) as char + '0']
  }

  function Zeros(n: nat): (s: string)
    ensures |s| == n
  {
    if n == 0 then "" else Zeros(n - 1) + "0"
  }

  /** `LPAD(s, width, '0')`: a longer text is cut on the right. */
  function LPad(s: string, width: nat): (r: string)
    ensures |r| == width
  {
    if |s| > width then s[..width] else Zeros(width - |s|) + s
  }

  /** The number that a text of digits stands for. */
  function Value(s: string): int {
    if s == "" then 0 else 10 * Value(s[..|s| - 1]) + s[|s| - 1] as int - '0' as int
  }

  function Power(width: nat): nat {
    if width == 0 then 1 else 10 * Power(width - 1)
  }

  /** The first `width` digits of a number that has more. */
  function Leading(n: nat, width: nat): nat {
    if n < Power(width) then n else if n < 10 then 0 else Leading(n / 10, width)
  }

  lemma {:induction false} ValueOfDigits(n: nat)
    ensures Value(Digits(n)) == n
  {
    var s, d := Digits(n), (n % 10) as char + '0';
    var front := if n < 10 then "" else Digits(n / 10);
    assert s[..|s| - 1] == front && s[|s| - 1] == d;
    if n < 10 {
    } else {
      ValueOfDigits(n / 10);
    }
  }

  lemma {:induction false} ValueOfZeros(n: nat, s: string)
    ensures Value(Zeros(n) + s) == Value(s)
  {
    var t := Zeros(n) + s;
    if s != "" {
      assert t[..|t| - 1] == Zeros(n) + s[..|s| - 1];
      ValueOfZeros(n, s[..|s| - 1]);
    } else if n > 0 {
      assert t[..|t| - 1] == Zeros(n - 1) + "";
      ValueOfZeros(n - 1, "");
    }
  }

  lemma {:induction false} DigitCount(n: nat, width: nat)
    requires width > 0
    ensures |Digits(n)| <= width <==> n < Power(width)
  {
    if n < 10 {
      PowerGrows(width);
    } else if width == 1 {
      assert Power(1) == 10 * Power(0);
    } else {
      DigitCount(n / 10, width - 1);
    }
  }

  lemma {:induction false} PowerGrows(width: nat)
    requires width > 0
    ensures Power(width) >= 10
  {
    if width > 1 {
      PowerGrows(width - 1);
    } else {
      assert Power(1) == 10 * Power(0);
    }
  }

  lemma {:induction false} CutIsLeading(n: nat, width: nat)
    requires width > 0
    ensures LPad(Digits(n), width) == LPad(Digits(Leading(n, width)), width)
    ensures Leading(n, width) < Power(width)
  {
    if n < Power(width) {
    } else {
      DigitCount(n, width);
      PowerGrows(width);
      CutIsLeading(n / 10, width);
      assert Digits(n)[..width] == LPad(Digits(n / 10), width);
    }
  }

  lemma ReadsAsLeading(n: nat, width: nat)
    requires width > 0
    ensures Value(LPad(Digits(n), width)) == Leading(n, width)
  {
    var m := Leading(n, width);
    CutIsLeading(n, width);
    DigitCount(m, width);
    ValueOfZeros(width - |Digits(m)|, Digits(m));
    ValueOfDigits(m);
  }

  /** Two numbers are written alike exactly when they lead with the same digits. */
  lemma WrittenAlike(a: nat, b: nat, width: nat)
    requires width > 0
    ensures LPad(Digits(a), width) == LPad(Digits(b), width) <==> Leading(a, width) == Leading(b, width)
  {
    CutIsLeading(a, width);
    CutIsLeading(b, width);
    ReadsAsLeading(a, width);
    ReadsAsLeading(b, width);
  }

  // ---- Ids -----------------------------------------------------------------------------------------------

  type Year = y: int | 0 <= y <= 9999

  /** What one run of the trigger writes: the program, the year and the number it drew. */
  datatype Entry = Entry(code: string, year: Year, number: nat)

  const WIDTH := 6

  function CertId(e: Entry): string {
    "IOS-" + e.code + "-" + LPad(Digits(e.year), 4) + "-" + LPad(Digits(e.number), WIDTH)
  }

  lemma CertIdParts(code: string, year: string, number: string)
    requires |year| == 4 && |number| == WIDTH
    ensures var id := "IOS-" + code + "-" + year + "-" + number;
            && |id| == |code| + 16 && id[4..|id| - 12] == code
            && id[|id| - 11..|id| - 7] == year && id[|id| - 6..] == number
  {
  }

  lemma YearsDiffer(a: Year, b: Year)
    ensures LPad(Digits(a), 4) == LPad(Digits(b), 4) <==> a == b
  {
    WrittenAlike(a, b, 4);
    assert Power(4) == 10 * Power(3) == 100 * Power(2) == 1000 * Power(1) == 10000;
  }

  /** Two ids are equal exactly when program, year and leading six digits are. */
  lemma IdsClashExactly(a: Entry, b: Entry)
    ensures CertId(a) == CertId(b)
       <==> a.code == b.code && a.year == b.year && Leading(a.number, WIDTH) == Leading(b.number, WIDTH)
  {
    CertIdParts(a.code, LPad(Digits(a.year), 4), LPad(Digits(a.number), WIDTH));
    CertIdParts(b.code, LPad(Digits(b.year), 4), LPad(Digits(b.number), WIDTH));
    YearsDiffer(a.year, b.year);
    WrittenAlike(a.number, b.number, WIDTH);
  }

  lemma {:induction false} OnlyDigits(n: nat)
    ensures forall c :: c in Digits(n) ==> '0' <= c <= '9'
  {
    if n < 10 {
    } else {
      OnlyDigits(n / 10);
    }
  }

  lemma {:induction false} OnlyZeros(n: nat)
    ensures forall c :: c in Zeros(n) ==> c == '0'
  {
    if n == 0 {
    } else {
      OnlyZeros(n - 1);
    }
  }

  lemma PaddedDigits(n: nat, width: nat)
    ensures forall c :: c in LPad(Digits(n), width) ==> '0' <= c <= '9'
  {
    var s := Digits(n);
    OnlyDigits(n);
    if |s| > width {
      assert forall c :: c in s[..width] ==> c in s;
    } else {
      OnlyZeros(width - |s|);
      assert forall c :: c in Zeros(width - |s|) + s ==> c in Zeros(width - |s|) || c in s;
    }
  }

  /** `IOS-`, the program, four digits of the year and six of the number, each set apart by a dash. */
  lemma IdReads(e: Entry)
    ensures var id, n := CertId(e), |e.code|;
      && |id| == n + 16 && id[..4] == "IOS-" && id[4..n + 4] == e.code
      && id[n + 4] == '-' && id[n + 9] == '-'
      && (forall k :: n + 5 <= k < n + 16 && k != n + 9 ==> '0' <= id[k] <= '9')
      && Value(id[n + 5..n + 9]) == e.year
      && (e.number < 1_000_000 ==> Value(id[n + 10..]) == e.number)
  {
    var year, number := LPad(Digits(e.year), 4), LPad(Digits(e.number), WIDTH);
    IdSlices(e.code, year, number);
    PaddedDigits(e.year, 4);
    PaddedDigits(e.number, WIDTH);
    DigitsAt(CertId(e), |e.code|, year, number);
    YearReads(e.year);
    SixDigits();
    ReadsAsLeading(e.number, WIDTH);
  }

  lemma IdSlices(code: string, year: string, number: string)
    requires |year| == 4 && |number| == 6
    ensures var id, n := "IOS-" + code + "-" + year + "-" + number, |code|;
      && |id| == n + 16 && id[..4] == "IOS-" && id[4..n + 4] == code && id[n + 4] == '-' && id[n + 9] == '-'
      && id[n + 5..n + 9] == year && id[n + 10..] == number
  {
  }

  lemma DigitsAt(id: string, n: nat, year: string, number: string)
    requires |id| == n + 16 && id[n + 5..n + 9] == year && id[n + 10..] == number
    requires forall c :: c in year + number ==> '0' <= c <= '9'
    ensures forall k :: n + 5 <= k < n + 16 && k != n + 9 ==> '0' <= id[k] <= '9'
  {
    forall k | n + 5 <= k < n + 16 && k != n + 9
      ensures '0' <= id[k] <= '9'
    {
      assert id[k] == if k < n + 9 then year[k - (n + 5)] else number[k - (n + 10)];
      assert id[k] in year + number;
    }
  }

  lemma YearReads(y: Year)
    ensures Value(LPad(Digits(y), 4)) == y
  {
    ReadsAsLeading(y, 4);
    assert Power(4) == 10 * Power(3) == 100 * Power(2) == 1000 * Power(1) == 10000;
  }

  lemma SixDigits()
    ensures Power(WIDTH) == 1_000_000
  {
    assert Power(6) == 10 * Power(5) == 100 * Power(4) == 1000 * Power(3) == 10000 * Power(2) == 100000 * Power(1);
  }

  // ---- Runs of inserts -----------------------------------------------------------------------------------

  function LowerChar(c: char): char {
    if 'A' <= c <= 'Z' then c - 'A' + 'a' else c
  }

  function Lower(s: string): string {
    if s == "" then "" else [LowerChar(s[0])] + Lower(s[1..])
  }

  /** An insert; the surrounding transaction may roll back, which takes the row but not the number back. */
  datatype Insert = Insert(code: string, year: Year, commits: bool)

  /** The sequences' next numbers, the ids in the table, and everything the trigger ever wrote. */
  datatype Registry = Registry(next: map<string, nat>, issued: set<string>, log: seq<Entry>)

  const PROGRAMS := {"psm", "pspo", "psd", "pal", "sps", "pmp"}

  function Fresh(): Registry {
    Registry(map key | key in PROGRAMS :: 1, {}, [])
  }

  datatype Failure = NoSequence | Duplicate(id: string)

  /** What an insert writes, when its program has a sequence. */
  function Drawn(r: Registry, i: Insert): Entry
    requires Lower(i.code) in r.next
  {
    Entry(i.code, i.year, r.next[Lower(i.code)])
  }

  /** The trigger, then the unique index on `cert_id`. */
  function Outcome(r: Registry, i: Insert): Result<string, Failure> {
    if Lower(i.code) !in r.next then Err(NoSequence)
    else
      var id := CertId(Drawn(r, i));
      if id in r.issued then Err(Duplicate(id)) else Ok(id)
  }

  function After(r: Registry, i: Insert): Registry {
    if Lower(i.code) !in r.next then r
    else
      var e := Drawn(r, i);
      Registry(
        r.next[Lower(i.code) := e.number + 1],
        if i.commits && Outcome(r, i).Ok? then r.issued + {CertId(e)} else r.issued,
        r.log + [e])
  }

  function AfterAll(r: Registry, inserts: seq<Insert>): Registry
    decreases |inserts|
  {
    if inserts == [] then r
    else After(AfterAll(r, inserts[..|inserts| - 1]), inserts[|inserts| - 1])
  }

  lemma {:induction false} LowerMeans(s: string)
    ensures |Lower(s)| == |s|
    ensures forall k :: 0 <= k < |s| ==> Lower(s)[k] == if 'A' <= s[k] <= 'Z' then s[k] + ('a' - 'A') else s[k]
  {
    if s == "" {
    } else {
      LowerMeans(s[1..]);
    }
  }

  /** The first certificate of a program has number one, and the next one number two, however the program is cased. */
  lemma FirstTwoIds(code: string, again: string, year: Year)
    requires Lower(code) in {"psm", "pspo", "psd", "pal", "sps", "pmp"} && Lower(again) == Lower(code)
    ensures var first, second := Insert(code, year, true), Insert(again, year, true);
      && Outcome(Fresh(), first) == Ok("IOS-" + code + "-" + LPad(Digits(year), 4) + "-" + "000001")
      && Drawn(After(Fresh(), first), second) == Entry(again, year, 2)
  {
    assert Lower(code) in Fresh().next;
    FirstNumberReads();
  }

  lemma FirstNumberReads()
    ensures LPad(Digits(1), WIDTH) == "000001"
  {
    assert Digits(1) == "1";
    assert Zeros(1) == "0" && Zeros(2) == "00" && Zeros(3) == "000" && Zeros(4) == "0000" && Zeros(5) == "00000";
  }

  /** Numbers in the log have been drawn, no two from the same sequence alike, and every issued id was written. */
  ghost predicate Sound(r: Registry) {
    && (forall e :: e in r.log ==> Lower(e.code) in r.next && e.number < r.next[Lower(e.code)])
    && (forall i, j :: 0 <= i < j < |r.log| && Lower(r.log[i].code) == Lower(r.log[j].code)
          ==> r.log[i].number < r.log[j].number)
    && (forall id :: id in r.issued ==> exists e :: e in r.log && CertId(e) == id)
  }

  lemma StepKeepsSound(r: Registry, i: Insert)
    requires Sound(r)
    ensures Sound(After(r, i))
  {
    if Lower(i.code) in r.next {
      var e, r' := Drawn(r, i), After(r, i);
      assert r'.log[|r.log|] == e;
      forall id | id in r'.issued
        ensures exists d :: d in r'.log && CertId(d) == id
      {
        if id in r.issued {
          var d :| d in r.log && CertId(d) == id;
          assert d in r'.log;
        }
      }
    }
  }

  lemma {:induction false} RunsAreSound(inserts: seq<Insert>)
    ensures Sound(AfterAll(Fresh(), inserts))
    decreases |inserts|
  {
    if inserts == [] {
    } else {
      RunsAreSound(inserts[..|inserts| - 1]);
      StepKeepsSound(AfterAll(Fresh(), inserts[..|inserts| - 1]), inserts[|inserts| - 1]);
    }
  }

  /** No sequence has handed out a number of more than six digits. */
  predicate Small(r: Registry) {
    forall key :: key in r.next ==> r.next[key] <= 1_000_000
  }

  /** Over any run, across programs, years and rollbacks, the ids written are pairwise distinct while numbers fit. */
  lemma IdsAreDistinct(inserts: seq<Insert>, i: nat, j: nat)
    requires i < j < |AfterAll(Fresh(), inserts).log| && Small(AfterAll(Fresh(), inserts))
    ensures CertId(AfterAll(Fresh(), inserts).log[i]) != CertId(AfterAll(Fresh(), inserts).log[j])
  {
    var r := AfterAll(Fresh(), inserts);
    RunsAreSound(inserts);
    IdsClashExactly(r.log[i], r.log[j]);
    SixDigits();
    assert r.log[i] in r.log && r.log[j] in r.log;
  }

  lemma NotYetIssued(r: Registry, i: Insert)
    requires Sound(r) && Lower(i.code) in r.next && r.next[Lower(i.code)] < 1_000_000
    ensures CertId(Drawn(r, i)) !in r.issued
  {
    if CertId(Drawn(r, i)) in r.issued {
      var e :| e in r.log && CertId(e) == CertId(Drawn(r, i));
      IdsClashExactly(e, Drawn(r, i));
      SixDigits();
    }
  }

  lemma {:induction false} SequencesStay(inserts: seq<Insert>)
    ensures AfterAll(Fresh(), inserts).next.Keys == PROGRAMS
    decreases |inserts|
  {
    if inserts == [] {
    } else {
      SequencesStay(inserts[..|inserts| - 1]);
    }
  }

  /** So an insert fails exactly for want of a sequence, never on the unique index, while its number fits. */
  lemma NeverADuplicate(inserts: seq<Insert>, i: Insert)
    requires Small(After(AfterAll(Fresh(), inserts), i))
    ensures Lower(i.code) in PROGRAMS ==> Outcome(AfterAll(Fresh(), inserts), i).Ok?
    ensures Lower(i.code) !in PROGRAMS ==> Outcome(AfterAll(Fresh(), inserts), i) == Err(NoSequence)
  {
    var r := AfterAll(Fresh(), inserts);
    SequencesStay(inserts);
    if Lower(i.code) in r.next {
      RunsAreSound(inserts);
      assert After(r, i).next[Lower(i.code)] == r.next[Lower(i.code)] + 1;
      NotYetIssued(r, i);
    }
  }

  // ---- Where the digits run out --------------------------------------------------------------------------

  /** `n` committed inserts for one program in one year. */
  function Same(i: Insert, n: nat): (inserts: seq<Insert>)
    ensures |inserts| == n
  {
    seq(n, _ => i)
  }

  /** The first `n` numbers of the program are in the table, and the next one is `n + 1`. */
  ghost predicate Filled(r: Registry, i: Insert, n: nat) {
    && Lower(i.code) in r.next && r.next[Lower(i.code)] == n + 1
    && forall k :: 1 <= k <= n ==> CertId(Entry(i.code, i.year, k)) in r.issued
  }

  lemma FillNext(r: Registry, i: Insert, n: nat)
    requires i.commits && Sound(r) && Filled(r, i, n) && n < 999_999
    ensures Filled(After(r, i), i, n + 1)
  {
    NotYetIssued(r, i);
    assert Drawn(r, i) == Entry(i.code, i.year, n + 1);
  }

  lemma {:induction false} SameRun(i: Insert, n: nat)
    requires i.commits && Lower(i.code) in PROGRAMS && n <= 999_999
    ensures Sound(AfterAll(Fresh(), Same(i, n))) && Filled(AfterAll(Fresh(), Same(i, n)), i, n)
  {
    RunsAreSound(Same(i, n));
    if n > 0 {
      SameRun(i, n - 1);
      assert Same(i, n)[..n - 1] == Same(i, n - 1);
      FillNext(AfterAll(Fresh(), Same(i, n - 1)), i, n - 1);
    } else {
      assert Same(i, 0) == [];
    }
  }

  /** The first `n` certificates of a program in one year can all be inserted exactly when `n` has six digits. */
  lemma YearlyCapacity(i: Insert, n: nat)
    requires i.commits && Lower(i.code) in PROGRAMS
    ensures (forall k :: 0 <= k < n ==> Outcome(AfterAll(Fresh(), Same(i, k)), i).Ok?) <==> n <= 999_999
  {
    if n <= 999_999 {
      forall k | 0 <= k < n
        ensures Outcome(AfterAll(Fresh(), Same(i, k)), i).Ok?
      {
        SameRun(i, k);
        NotYetIssued(AfterAll(Fresh(), Same(i, k)), i);
      }
    } else {
      TheMillionthFails(i);
    }
  }

  /** The millionth number is cut to the id of the hundred-thousandth. */
  lemma TheMillionthFails(i: Insert)
    requires i.commits && Lower(i.code) in PROGRAMS
    ensures Outcome(AfterAll(Fresh(), Same(i, 999_999)), i)
         == Err(Duplicate(CertId(Entry(i.code, i.year, 100_000))))
  {
    SameRun(i, 999_999);
    SixDigits();
    var e := Entry(i.code, i.year, 1_000_000);
    assert Leading(1_000_000, WIDTH) == Leading(100_000, WIDTH);
    IdsClashExactly(e, Entry(i.code, i.year, 100_000));
  }

  /** The table with its trigger and its sequences, changed in place. */
  class IssuedCertificates {
    var next: map<string, nat>
    var issued: set<string>
    ghost var log: seq<Entry>

    constructor ()
      ensures Contents() == Fresh()
    {
      next := map key | key in PROGRAMS :: 1;
      issued := {};
      log := [];
    }

    ghost function Contents(): Registry
      reads this
    {
      Registry(next, issued, log)
    }

    /** The BEFORE INSERT trigger: `nextval` moves the sequence for good, then the id is put together. */
    method SetCertSequence(code: string, year: Year) returns (id: Result<string, Failure>)
      modifies this
      ensures issued == old(issued)
      ensures Lower(code) !in old(next) ==> id == Err(NoSequence) && next == old(next) && log == old(log)
      ensures Lower(code) in old(next)
          ==> var e := Entry(code, year, old(next)[Lower(code)]);
              id == Ok(CertId(e)) && next == old(next)[Lower(code) := e.number + 1] && log == old(log) + [e]
    {
      if Lower(code) !in next {
        return Err(NoSequence);
      }
      var number := next[Lower(code)];
      next := next[Lower(code) := number + 1];
      log := log + [Entry(code, year, number)];
      id := Ok("IOS-" + code + "-" + LPad(Digits(year), 4) + "-" + LPad(Digits(number), WIDTH));
    }

    method InsertRow(i: Insert) returns (r: Result<string, Failure>)
      modifies this
      ensures r == old(Outcome(Contents(), i)) && Contents() == old(After(Contents(), i))
      ensures r == Err(NoSequence) <==> Lower(i.code) !in old(next)
      ensures r.Ok? ==> r.value !in old(issued) && issued == old(issued) + if i.commits then {r.value} else {}
      ensures r.Err? ==> issued == old(issued) && (r.error.Duplicate? ==> r.error.id in issued)
    {
      r := SetCertSequence(i.code, i.year);
      if r.Ok? {
        if r.value in issued {
          r := Err(Duplicate(r.value));
        } else if i.commits {
          issued := issued + {r.value};
        }
      }
    }
  }
}

/** What `/api/classes` and `/api/leaderboard` return, stated as functions
    of the tables: a professor's rows grouped by section, each section's
    subjects de-duplicated in first-seen order and joined, and the
    section's students ordered by balance, highest first. */
module Roster {
  import opened Common
  import opened Schema

  /** The separator `Array.prototype.join` is given for the subject list. */
  const SubjectSeparator: string := ", "

  /** A student row as the queries return it. */
  datatype StudentRow = StudentRow(email: Email, info: Student)

  /** One element of the `data` array: a section, its subjects joined, and
      its students. */
  datatype Group = Group(section: string, subject: string, students: seq<StudentRow>)

  /** `SELECT section, subject FROM classes WHERE profEmail = ?`, in table order. */
  function RowsOf(classes: seq<ClassRow>, prof: Email): (r: seq<ClassRow>)
    ensures forall x :: x in r <==> x in classes && x.profEmail == prof
  {
    if classes == [] then []
    else
      var init, last := classes[..|classes| - 1], classes[|classes| - 1];
      assert classes == init + [last];
      RowsOf(init, prof) + (if last.profEmail == prof then [last] else [])
  }

  /** The `section` column of `rows`. */
  function SectionColumn(rows: seq<ClassRow>): (r: seq<string>)
    ensures |r| == |rows|
    ensures forall i :: 0 <= i < |rows| ==> r[i] == rows[i].section
  {
    if rows == [] then [] else SectionColumn(rows[..|rows| - 1]) + [rows[|rows| - 1].section]
  }

  /** The subjects of the rows of `section`, repeats included. */
  function SubjectColumn(rows: seq<ClassRow>, section: string): seq<string>
  {
    if rows == [] then []
    else
      var last := rows[|rows| - 1];
      SubjectColumn(rows[..|rows| - 1], section) + (if last.section == section then [last.subject] else [])
  }

  /** The keys of `sectionMap` after the first loop, in insertion order. */
  function Sections(rows: seq<ClassRow>): seq<string>
  {
    Distinct(SectionColumn(rows))
  }

  /** The members of a section's `Set` of subjects, in insertion order. */
  function Subjects(rows: seq<ClassRow>, section: string): seq<string>
  {
    Distinct(SubjectColumn(rows, section))
  }

  lemma {:induction false} SubjectColumnElements(rows: seq<ClassRow>, section: string)
    ensures forall x :: x in SubjectColumn(rows, section) <==>
      exists i :: 0 <= i < |rows| && rows[i].section == section && rows[i].subject == x
  {
    if rows != [] {
      var init, last := rows[..|rows| - 1], rows[|rows| - 1];
      SubjectColumnElements(init, section);
      forall x | exists i :: 0 <= i < |rows| && rows[i].section == section && rows[i].subject == x
        ensures x in SubjectColumn(rows, section)
      {
        var i :| 0 <= i < |rows| && rows[i].section == section && rows[i].subject == x;
        if i < |init| {
          assert init[i] == rows[i];
        }
      }
    }
  }

  /** Every section of the rows is listed once, and nothing else is. */
  lemma SectionsSpec(rows: seq<ClassRow>)
    ensures NoRepeats(Sections(rows))
    ensures forall s :: s in Sections(rows) <==> exists i :: 0 <= i < |rows| && rows[i].section == s
  {
    DistinctNoRepeats(SectionColumn(rows));
    DistinctElements(SectionColumn(rows));
  }

  /** Every subject taught in `section` is listed once, and nothing else is. */
  lemma SubjectsSpec(rows: seq<ClassRow>, section: string)
    ensures NoRepeats(Subjects(rows, section))
    ensures forall x :: x in Subjects(rows, section) <==>
      exists i :: 0 <= i < |rows| && rows[i].section == section && rows[i].subject == x
  {
    DistinctNoRepeats(SubjectColumn(rows, section));
    DistinctElements(SubjectColumn(rows, section));
    SubjectColumnElements(rows, section);
  }

  /** One more row, as the first loop sees it: its section becomes a new key
      if unseen, and otherwise the keys stay as they are. */
  lemma SectionsAppend(rows: seq<ClassRow>, r: ClassRow)
    ensures Sections(rows + [r]) ==
      if r.section in Sections(rows) then Sections(rows) else Sections(rows) + [r.section]
  {
    assert (rows + [r])[..|rows|] == rows;
    DistinctAppend(SectionColumn(rows), r.section);
  }

  /** One more row adds its subject to its own section's set if new. */
  lemma SubjectsAppend(rows: seq<ClassRow>, r: ClassRow)
    ensures Subjects(rows + [r], r.section) ==
      if r.subject in Subjects(rows, r.section) then Subjects(rows, r.section)
      else Subjects(rows, r.section) + [r.subject]
  {
    assert (rows + [r])[..|rows|] == rows;
    DistinctAppend(SubjectColumn(rows, r.section), r.subject);
  }

  /** One more row leaves the subjects of every other section alone. */
  lemma SubjectsAppendOther(rows: seq<ClassRow>, r: ClassRow, section: string)
    requires section != r.section
    ensures Subjects(rows + [r], section) == Subjects(rows, section)
  {
    assert (rows + [r])[..|rows|] == rows;
    assert SubjectColumn(rows + [r], section) == SubjectColumn(rows, section);
  }

  lemma {:induction false} SubjectColumnOfUnseen(rows: seq<ClassRow>, section: string)
    requires forall i :: 0 <= i < |rows| ==> rows[i].section != section
    ensures SubjectColumn(rows, section) == []
  {
    if rows != [] {
      SubjectColumnOfUnseen(rows[..|rows| - 1], section);
    }
  }

  /** A section that has not been seen has no subjects yet. */
  lemma {:induction false} SubjectsOfUnseen(rows: seq<ClassRow>, section: string)
    requires section !in Sections(rows)
    ensures Subjects(rows, section) == []
  {
    SectionsSpec(rows);
    SubjectColumnOfUnseen(rows, section);
  }

  // ------------------------------------------------------ student lists

  /** Highest balance first. */
  predicate ByTokensDesc(r: seq<StudentRow>)
  {
    forall i, j :: 0 <= i < j < |r| ==> r[i].info.nTokens >= r[j].info.nTokens
  }

  function EmailSet(r: seq<StudentRow>): set<Email>
  {
    set i | 0 <= i < |r| :: r[i].email
  }

  /** Where a row with balance `t` goes in a list ordered highest first:
      after every row with at least `t`, before every row with less. */
  function InsertionPoint(r: seq<StudentRow>, t: int): (k: nat)
    requires ByTokensDesc(r)
    ensures k <= |r|
    ensures forall i :: 0 <= i < k ==> r[i].info.nTokens >= t
    ensures forall i :: k <= i < |r| ==> r[i].info.nTokens < t
  {
    if r == [] || r[0].info.nTokens < t then 0 else 1 + InsertionPoint(r[1..], t)
  }

  /** Inserts `x` at its place in a list ordered highest balance first. */
  function Insert(r: seq<StudentRow>, x: StudentRow): (r': seq<StudentRow>)
    requires ByTokensDesc(r)
    ensures |r'| == |r| + 1
    ensures var k := InsertionPoint(r, x.info.nTokens);
      && r'[k] == x
      && (forall i :: 0 <= i < k ==> r'[i] == r[i])
      && (forall i :: k < i < |r'| ==> r'[i] == r[i - 1])
  {
    var k := InsertionPoint(r, x.info.nTokens);
    r[..k] + [x] + r[k..]
  }

  /** The rows `r` hold exactly the students of `section` among `seen`,
      each once, highest balance first. */
  ghost predicate ListOf(r: seq<StudentRow>, students: map<Email, Student>, section: string, seen: set<Email>)
  {
    && (forall i :: 0 <= i < |r| ==>
          r[i].email in students && students[r[i].email] == r[i].info && r[i].info.section == section)
    && (forall i, j :: 0 <= i < j < |r| ==> r[i].email != r[j].email)
    && EmailSet(r) == (set e | e in seen && e in students && students[e].section == section)
    && ByTokensDesc(r)
  }

  /** What `SELECT * FROM students WHERE class = ? ORDER BY nTokens DESC`
      may return: every student of `section` once, with its row as stored,
      nobody else, highest balance first (equal balances in any order). */
  ghost predicate IsClassList(r: seq<StudentRow>, students: map<Email, Student>, section: string)
  {
    ListOf(r, students, section, students.Keys)
  }

  lemma InsertSorted(r: seq<StudentRow>, x: StudentRow)
    requires ByTokensDesc(r)
    ensures ByTokensDesc(Insert(r, x))
  {
    var k := InsertionPoint(r, x.info.nTokens);
    var r' := Insert(r, x);
    forall i, j | 0 <= i < j < |r'| ensures r'[i].info.nTokens >= r'[j].info.nTokens {
      if j < k {
      } else if j == k {
      } else if i < k {
      } else if i == k {
      } else {
        assert r'[i] == r[i - 1] && r'[j] == r[j - 1];
      }
    }
  }

  lemma InsertEmails(r: seq<StudentRow>, x: StudentRow)
    requires ByTokensDesc(r)
    ensures EmailSet(Insert(r, x)) == EmailSet(r) + {x.email}
  {
    var k := InsertionPoint(r, x.info.nTokens);
    var r' := Insert(r, x);
    forall y | y in EmailSet(r') ensures y in EmailSet(r) + {x.email} {
      var i :| 0 <= i < |r'| && r'[i].email == y;
      if i > k { assert r[i - 1].email == y; }
    }
    forall y | y in EmailSet(r) ensures y in EmailSet(r') {
      var i :| 0 <= i < |r| && r[i].email == y;
      if i < k { assert r'[i].email == y; } else { assert r'[i + 1].email == y; }
    }
    assert r'[k].email == x.email;
  }

  /** A student of `section` not yet seen goes in at its place. */
  lemma InsertMember(r: seq<StudentRow>, students: map<Email, Student>, section: string, seen: set<Email>, e: Email)
    requires ListOf(r, students, section, seen) && e in students && e !in seen && students[e].section == section
    ensures ListOf(Insert(r, StudentRow(e, students[e])), students, section, seen + {e})
  {
    var x := StudentRow(e, students[e]);
    var r' := Insert(r, x);
    var k := InsertionPoint(r, x.info.nTokens);
    assert ByTokensDesc(r') by {
      InsertSorted(r, x);
    }
    assert EmailSet(r') == (set e' | e' in seen + {e} && e' in students && students[e'].section == section) by {
      InsertEmails(r, x);
    }
    assert e !in EmailSet(r);
    forall i | 0 <= i < |r'| && i != k ensures r'[i] in r {
      if i < k { assert r'[i] == r[i]; } else { assert r'[i] == r[i - 1]; }
    }
    forall i, j | 0 <= i < j < |r'| ensures r'[i].email != r'[j].email {
      if i != k && j != k {
        var i0, j0 := if i < k then i else i - 1, if j < k then j else j - 1;
        assert r'[i] == r[i0] && r'[j] == r[j0];
      } else {
        var m := if i == k then j else i;
        assert r'[m].email in EmailSet(r);
      }
    }
  }

  /** One step of the scan: a student of `section` is inserted, any other
      student is skipped. */
  lemma InsertStep(r: seq<StudentRow>, students: map<Email, Student>, section: string, seen: set<Email>, e: Email)
    requires ListOf(r, students, section, seen) && e in students && e !in seen
    ensures students[e].section == section ==>
      ListOf(Insert(r, StudentRow(e, students[e])), students, section, seen + {e})
    ensures students[e].section != section ==> ListOf(r, students, section, seen + {e})
  {
    if students[e].section == section {
      InsertMember(r, students, section, seen, e);
    } else {
      assert (set e' | e' in seen + {e} && e' in students && students[e'].section == section) ==
             (set e' | e' in seen && e' in students && students[e'].section == section);
    }
  }

  /** The students query: scan the table, keep the rows of `section`, and
      insert each at its place in the balance order. */
  method SelectClass(students: map<Email, Student>, section: string) returns (r: seq<StudentRow>)
    ensures IsClassList(r, students, section)
  {
    r := [];
    var pending := students.Keys;
    while pending != {}
      invariant pending <= students.Keys
      invariant ListOf(r, students, section, students.Keys - pending)
      decreases pending
    {
      var e :| e in pending;
      InsertStep(r, students, section, students.Keys - pending, e);
      if students[e].section == section {
        r := Insert(r, StudentRow(e, students[e]));
      }
      assert students.Keys - (pending - {e}) == students.Keys - pending + {e};
      pending := pending - {e};
    }
    assert students.Keys - pending == students.Keys;
  }
}

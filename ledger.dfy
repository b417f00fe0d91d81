/** The token ledger of the web application: the five tables as fields of
    one object and each request handler that changes them as one method.
    A handler runs as a single atomic step; its outcome names the error
    response, or `Done` for `{success: true}`. */
module Ledger {
  import opened Common
  import opened Schema
  import opened Validation
  import opened Roster

  /** The `amount` field of a request body. `Number(0)` is the JSON number
      zero, which JavaScript treats as missing. */
  datatype AmountField = Missing | NotANumber | Number(n: int)

  datatype Failure =
    // the token endpoints
    | DataNotValid | NotPositive | TargetNotFound | NotEnoughTokens | InternalError
    // adding a class
    | MissingData | ClassExists
    // registration
    | Form(error: FormError) | ClassNotFound | RoleNotValid | EmailUsed

  datatype Outcome = Done | Failed(failure: Failure)

  /** The two request checks every token endpoint makes first:
      `!target || !amount || isNaN(amount)`, then `amount <= 0`. */
  function CheckRequest(target: Email, amount: AmountField): (r: Option<Failure>)
    ensures r == None <==> target != "" && amount.Number? && amount.n > 0
    ensures r == Some(NotPositive) <==> target != "" && amount.Number? && amount.n < 0
    ensures r == None || r == Some(DataNotValid) || r == Some(NotPositive)
  {
    if target == "" || !amount.Number? || amount.n == 0 then Some(DataNotValid)
    else if amount.n <= 0 then Some(NotPositive)
    else None
  }

  /** `SELECT 1 FROM classes WHERE section = ?` finds a row. */
  predicate HasSection(classes: seq<ClassRow>, section: string)
  {
    exists i :: 0 <= i < |classes| && classes[i].section == section
  }

  // -------------------------------------------------- the table invariant

  /** Every balance is non-negative (`CHECK (nTokens >= 0)`), equals what
      the two logs say about it, and the key passes the email CHECK. */
  ghost predicate BalancesMatchLogs(students: map<Email, Student>, gens: seq<Entry>, txs: seq<Entry>)
  {
    forall e :: e in students ==>
      SchemaEmail(e) && students[e].nTokens >= 0 && students[e].nTokens == Replay(gens, txs, e)
  }

  /** The foreign keys of both logs hold and every transfer amount is
      non-negative (`CHECK (nTokens >= 0)` on `transactions`). */
  ghost predicate LogsReferenceRows(students: map<Email, Student>, professors: map<Email, Professor>,
                                    gens: seq<Entry>, txs: seq<Entry>)
  {
    && (forall i :: 0 <= i < |gens| ==> gens[i].sender in professors && gens[i].receiver in students)
    && (forall i :: 0 <= i < |txs| ==>
          txs[i].amount >= 0 && txs[i].sender in students && txs[i].receiver in students)
  }

  /** The primary key of `classes`, its foreign key, and the email CHECK of
      `professors`. */
  ghost predicate ClassesWellFormed(professors: map<Email, Professor>, classes: seq<ClassRow>)
  {
    && NoRepeats(classes)
    && (forall i :: 0 <= i < |classes| ==> classes[i].profEmail in professors)
    && (forall p :: p in professors ==> SchemaEmail(p))
  }

  /** The whole invariant: the above, and the tokens held by all students
      together are exactly those professors have issued net of revocations. */
  ghost predicate Consistent(students: map<Email, Student>, professors: map<Email, Professor>,
                             classes: seq<ClassRow>, gens: seq<Entry>, txs: seq<Entry>)
  {
    && BalancesMatchLogs(students, gens, txs)
    && LogsReferenceRows(students, professors, gens, txs)
    && ClassesWellFormed(professors, classes)
    && TotalTokens(students) == Issued(gens)
  }

  /** A grant or revocation that leaves the balance non-negative, logged in
      `generations`, keeps the invariant. */
  lemma GenerationKeepsConsistent(students: map<Email, Student>, professors: map<Email, Professor>,
                                  classes: seq<ClassRow>, gens: seq<Entry>, txs: seq<Entry>,
                                  prof: Email, target: Email, delta: int)
    requires Consistent(students, professors, classes, gens, txs)
    requires prof in professors && target in students && students[target].nTokens + delta >= 0
    ensures Consistent(Credit(students, target, delta), professors, classes,
                       gens + [Entry(prof, target, delta)], txs)
  {
    var x := Entry(prof, target, delta);
    var students', gens' := Credit(students, target, delta), gens + [x];
    forall e | e in students'
      ensures students'[e].nTokens == Replay(gens', txs, e)
    {
      ReplayAppendGeneration(gens, txs, x, e);
    }
    ReplayAppendGeneration(gens, txs, x, target);
    CreditTotal(students, target, delta);
    assert forall i :: 0 <= i < |gens'| ==> gens'[i] == if i < |gens| then gens[i] else x;
  }

  /** A transfer the sender can afford, logged in `transactions`, keeps the
      invariant; in particular the sum of all balances is unchanged. */
  lemma TransferKeepsConsistent(students: map<Email, Student>, professors: map<Email, Professor>,
                                classes: seq<ClassRow>, gens: seq<Entry>, txs: seq<Entry>,
                                sender: Email, receiver: Email, amount: int)
    requires Consistent(students, professors, classes, gens, txs)
    requires sender in students && receiver in students && 0 <= amount <= students[sender].nTokens
    ensures Consistent(Transfer(students, sender, receiver, amount), professors, classes,
                       gens, txs + [Entry(sender, receiver, amount)])
  {
    var x := Entry(sender, receiver, amount);
    var students', txs' := Transfer(students, sender, receiver, amount), txs + [x];
    TransferEffect(students, sender, receiver, amount);
    forall e | e in students'
      ensures students'[e].nTokens >= 0 && students'[e].nTokens == Replay(gens, txs', e)
    {
      ReplayAppendTransaction(gens, txs, x, e);
    }
    assert forall i :: 0 <= i < |txs'| ==> txs'[i] == if i < |txs| then txs[i] else x;
  }

  /** A new student row starts at zero tokens, which is also what the logs
      say about an address they have never mentioned. */
  lemma NewStudentKeepsConsistent(students: map<Email, Student>, professors: map<Email, Professor>,
                                  classes: seq<ClassRow>, gens: seq<Entry>, txs: seq<Entry>,
                                  email: Email, s: Student)
    requires Consistent(students, professors, classes, gens, txs)
    requires email !in students && SchemaEmail(email) && s.nTokens == 0
    ensures Consistent(students[email := s], professors, classes, gens, txs)
  {
    ReplayUnmentioned(gens, txs, email);
    InsertTotal(students, email, s);
  }

  /** A new class row for a registered professor, not yet present, keeps the
      invariant. */
  lemma NewClassKeepsConsistent(students: map<Email, Student>, professors: map<Email, Professor>,
                                classes: seq<ClassRow>, gens: seq<Entry>, txs: seq<Entry>,
                                row: ClassRow)
    requires Consistent(students, professors, classes, gens, txs)
    requires row.profEmail in professors && row !in classes
    ensures Consistent(students, professors, classes + [row], gens, txs)
  {
    var classes' := classes + [row];
    assert forall i :: 0 <= i < |classes'| ==> classes'[i] == if i < |classes| then classes[i] else row;
  }

  /** A profile edit that keeps the balance keeps the invariant: the
      replayed balances and the total are those of the row it replaces. */
  lemma StudentEditKeepsConsistent(students: map<Email, Student>, professors: map<Email, Professor>,
                                   classes: seq<ClassRow>, gens: seq<Entry>, txs: seq<Entry>,
                                   email: Email, s: Student)
    requires Consistent(students, professors, classes, gens, txs)
    requires email in students && s.nTokens == students[email].nTokens
    ensures Consistent(students[email := s], professors, classes, gens, txs)
  {
    ReplaceTotal(students, email, s);
    assert students[email := s].Keys == students.Keys;
  }

  /** The duplicate check of `add_class`, run over the professor's own rows,
      finds exactly the rows already in the table. */
  lemma AlreadyExistsIsMember(classes: seq<ClassRow>, row: ClassRow)
    ensures (exists i :: 0 <= i < |RowsOf(classes, row.profEmail)| &&
               RowsOf(classes, row.profEmail)[i].section == row.section &&
               RowsOf(classes, row.profEmail)[i].subject == row.subject)
            <==> row in classes
  {
    var mine := RowsOf(classes, row.profEmail);
    if row in classes {
      assert row in mine;
      var i :| 0 <= i < |mine| && mine[i] == row;
    }
  }

  /** `keys` and `sectionMap` hold what the first loop of `/api/classes` has
      built from `rows`: the sections in first-seen order, and for each
      the `Set` of its subjects. */
  ghost predicate Grouped(rows: seq<ClassRow>, keys: seq<string>, sectionMap: map<string, seq<string>>)
  {
    KeysInOrder(rows, keys) && SameKeys(keys, sectionMap) && SubjectSets(rows, sectionMap)
  }

  /** `keys` are the sections of `rows` in first-seen order. */
  ghost predicate KeysInOrder(rows: seq<ClassRow>, keys: seq<string>)
  {
    keys == Sections(rows)
  }

  /** `sectionMap` has exactly the keys listed in `keys`. */
  ghost predicate SameKeys(keys: seq<string>, sectionMap: map<string, seq<string>>)
  {
    forall s :: s in sectionMap <==> s in keys
  }

  /** Each value of `sectionMap` is its section's subjects in `rows`. */
  ghost predicate SubjectSets(rows: seq<ClassRow>, sectionMap: map<string, seq<string>>)
  {
    forall s :: s in sectionMap ==> sectionMap[s] == Subjects(rows, s)
  }

  /** An iteration that meets a new section adds it as a key holding a
      one-subject set. */
  lemma GroupNewSection(rows: seq<ClassRow>, keys: seq<string>, sectionMap: map<string, seq<string>>, r: ClassRow)
    requires Grouped(rows, keys, sectionMap) && r.section !in sectionMap
    ensures Grouped(rows + [r], keys + [r.section], sectionMap[r.section := [r.subject]])
  {
    var keys', sectionMap' := keys + [r.section], sectionMap[r.section := [r.subject]];
    assert KeysInOrder(rows + [r], keys') by {
      SectionsAppend(rows, r);
    }
    assert SameKeys(keys', sectionMap') by {
      forall s | s in keys' ensures s in sectionMap' {
        assert s in keys || s == r.section;
      }
    }
    assert SubjectSets(rows + [r], sectionMap') by {
      forall s | s in sectionMap' ensures sectionMap'[s] == Subjects(rows + [r], s) {
        if s == r.section {
          SubjectsOfUnseen(rows, r.section);
          SubjectsAppend(rows, r);
        } else {
          SubjectsAppendOther(rows, r, s);
        }
      }
    }
  }

  /** An iteration that meets a known section and a subject already in its
      set changes nothing: `Set.add` of a present member is a no-op. */
  lemma GroupKnownSubject(rows: seq<ClassRow>, keys: seq<string>, sectionMap: map<string, seq<string>>, r: ClassRow)
    requires Grouped(rows, keys, sectionMap) && r.section in sectionMap && r.subject in sectionMap[r.section]
    ensures Grouped(rows + [r], keys, sectionMap)
  {
    assert KeysInOrder(rows + [r], keys) by {
      SectionsAppend(rows, r);
    }
    assert SubjectSets(rows + [r], sectionMap) by {
      forall s | s in sectionMap ensures sectionMap[s] == Subjects(rows + [r], s) {
        if s == r.section {
          SubjectsAppend(rows, r);
        } else {
          SubjectsAppendOther(rows, r, s);
        }
      }
    }
  }

  /** An iteration that meets a known section and a new subject appends the
      subject to that section's set. */
  lemma GroupNewSubject(rows: seq<ClassRow>, keys: seq<string>, sectionMap: map<string, seq<string>>, r: ClassRow)
    requires Grouped(rows, keys, sectionMap) && r.section in sectionMap && r.subject !in sectionMap[r.section]
    ensures Grouped(rows + [r], keys, sectionMap[r.section := sectionMap[r.section] + [r.subject]])
  {
    var sectionMap' := sectionMap[r.section := sectionMap[r.section] + [r.subject]];
    assert KeysInOrder(rows + [r], keys) by {
      SectionsAppend(rows, r);
    }
    assert SameKeys(keys, sectionMap') by {
      assert sectionMap'.Keys == sectionMap.Keys;
    }
    assert SubjectSets(rows + [r], sectionMap') by {
      forall s | s in sectionMap' ensures sectionMap'[s] == Subjects(rows + [r], s) {
        if s == r.section {
          SubjectsAppend(rows, r);
        } else {
          SubjectsAppendOther(rows, r, s);
        }
      }
    }
  }

  /** Creating an empty `Set` under a key and then adding to it leaves the
      one-member set under that key. */
  lemma FreshSetAdd(m: map<string, seq<string>>, k: string, x: string)
    ensures m[k := []][k := [] + [x]] == m[k := [x]]
  {
    assert [] + [x] == [x];
  }

  /** One iteration of the first loop keeps `Grouped`, whichever of its
      branches run. */
  lemma GroupStep(rows: seq<ClassRow>, keys: seq<string>, sectionMap: map<string, seq<string>>, r: ClassRow)
    requires Grouped(rows, keys, sectionMap)
    ensures r.section !in sectionMap ==>
      Grouped(rows + [r], keys + [r.section], sectionMap[r.section := []][r.section := [] + [r.subject]])
    ensures r.section in sectionMap && r.subject in sectionMap[r.section] ==>
      Grouped(rows + [r], keys, sectionMap)
    ensures r.section in sectionMap && r.subject !in sectionMap[r.section] ==>
      Grouped(rows + [r], keys, sectionMap[r.section := sectionMap[r.section] + [r.subject]])
  {
    if r.section !in sectionMap {
      GroupNewSection(rows, keys, sectionMap, r);
      FreshSetAdd(sectionMap, r.section, r.subject);
    } else if r.subject in sectionMap[r.section] {
      GroupKnownSubject(rows, keys, sectionMap, r);
    } else {
      GroupNewSubject(rows, keys, sectionMap, r);
    }
  }

  /** The body of the first loop of `/api/classes`: create the section's
      entry if it has none, then add the subject to its `Set`. */
  method AddRow(ghost seen: seq<ClassRow>, keys: seq<string>, sectionMap: map<string, seq<string>>, cls: ClassRow)
    returns (keys': seq<string>, sectionMap': map<string, seq<string>>)
    requires Grouped(seen, keys, sectionMap)
    ensures Grouped(seen + [cls], keys', sectionMap')
  {
    GroupStep(seen, keys, sectionMap, cls);
    keys', sectionMap' := keys, sectionMap;
    if cls.section !in sectionMap' {
      sectionMap' := sectionMap'[cls.section := []];
      keys' := keys' + [cls.section];
    }
    if cls.subject !in sectionMap'[cls.section] {
      sectionMap' := sectionMap'[cls.section := sectionMap'[cls.section] + [cls.subject]];
    }
  }

  /** The first loop of `/api/classes`: an object keyed by section (its keys
      in insertion order) whose values are `Set`s of subjects. */
  method GroupRows(rows: seq<ClassRow>) returns (keys: seq<string>, sectionMap: map<string, seq<string>>)
    ensures keys == Sections(rows)
    ensures forall s :: s in sectionMap <==> s in keys
    ensures forall s :: s in sectionMap ==> sectionMap[s] == Subjects(rows, s)
  {
    keys, sectionMap := [], map[];
    ghost var seen: seq<ClassRow> := [];
    var i := 0;
    while i < |rows|
      invariant 0 <= i <= |rows| && seen == rows[..i]
      invariant Grouped(seen, keys, sectionMap)
    {
      keys, sectionMap := AddRow(seen, keys, sectionMap, rows[i]);
      seen := seen + [rows[i]];
      i := i + 1;
    }
    assert seen == rows;
  }

  /** `g` is the element of the `/api/classes` answer for `section`: its
      subjects joined, and its students highest balance first. */
  ghost predicate Describes(g: Group, rows: seq<ClassRow>, section: string, students: map<Email, Student>)
  {
    && g.section == section
    && g.subject == Join(Subjects(rows, section), SubjectSeparator)
    && IsClassList(g.students, students, section)
  }

  // ------------------------------------------------------- profile edits

  /** The caller has a row in the table of the session's role. */
  predicate HasAccount(students: map<Email, Student>, professors: map<Email, Professor>,
                       role: Option<Role>, email: Email)
  {
    role.Some? && (if role.value == Stud then email in students else email in professors)
  }

  /** `UPDATE students SET <column> = ?` on one row: the named column takes
      the value and the balance is never touched. The password column is
      not part of the row here. */
  function EditStudent(s: Student, column: string, value: string): (r: Student)
    ensures r.nTokens == s.nTokens
    ensures r.name == (if column == "name" then value else s.name)
    ensures r.surname == (if column == "surname" then value else s.surname)
    ensures r.section == (if column == "class" then value else s.section)
  {
    if column == "name" then s.(name := value)
    else if column == "surname" then s.(surname := value)
    else if column == "class" then s.(section := value)
    else s
  }

  /** `UPDATE professors SET <column> = ?` on one row. */
  function EditProfessor(p: Professor, column: string, value: string): (r: Professor)
    ensures r.name == (if column == "name" then value else p.name)
    ensures r.surname == (if column == "surname" then value else p.surname)
  {
    if column == "name" then p.(name := value)
    else if column == "surname" then p.(surname := value)
    else p
  }

  // ------------------------------------------------------- the database

  class TokenDb {
    var students: map<Email, Student>
    var professors: map<Email, Professor>
    /** In insertion order, which is the order a scan returns them in. */
    var classes: seq<ClassRow>
    var generations: seq<Entry>
    var transactions: seq<Entry>

    ghost predicate Valid()
      reads this
    {
      Consistent(students, professors, classes, generations, transactions)
    }

    /** The freshly created, empty database. */
    constructor ()
      ensures Valid()
      ensures students == map[] && professors == map[] && classes == []
      ensures generations == [] && transactions == []
    {
      students, professors, classes := map[], map[], [];
      generations, transactions := [], [];
    }

    /** `POST /api/prof/give_tokens` by the signed-in professor `prof`. There
        is no check that `prof` teaches the target's class. */
    method ProfGiveTokens(prof: Email, target: Email, amount: AmountField) returns (o: Outcome)
      requires Valid() && prof in professors
      modifies this
      ensures Valid()
      ensures professors == old(professors) && classes == old(classes) && transactions == old(transactions)
      ensures CheckRequest(target, amount).Some? ==> o == Failed(CheckRequest(target, amount).value)
      ensures CheckRequest(target, amount) == None && target !in old(students) ==> o == Failed(TargetNotFound)
      ensures o == Done <==> CheckRequest(target, amount) == None && target in old(students)
      ensures o.Failed? ==> students == old(students) && generations == old(generations)
      ensures o == Done ==>
        && students == Credit(old(students), target, amount.n)
        && generations == old(generations) + [Entry(prof, target, amount.n)]
    {
      var bad := CheckRequest(target, amount);
      if bad.Some? {
        o := Failed(bad.value);
      } else if target !in students {
        o := Failed(TargetNotFound);
      } else {
        Generate(prof, target, amount.n);
        o := Done;
      }
    }

    /** The two statements both professor handlers end with: the balance
        update and the row logged in `generations`. */
    method Generate(prof: Email, target: Email, delta: int)
      requires Valid() && prof in professors && target in students
      requires students[target].nTokens + delta >= 0
      modifies this
      ensures Valid()
      ensures students == Credit(old(students), target, delta)
      ensures generations == old(generations) + [Entry(prof, target, delta)]
      ensures professors == old(professors) && classes == old(classes) && transactions == old(transactions)
    {
      GenerationKeepsConsistent(students, professors, classes, generations, transactions, prof, target, delta);
      students, generations := Credit(students, target, delta), generations + [Entry(prof, target, delta)];
    }

    /** The statements the student handler ends with: the receiver is
        credited, then the sender debited, then the transfer is logged. */
    method Exchange(sender: Email, receiver: Email, amount: int)
      requires Valid() && sender in students && receiver in students
      requires 0 <= amount <= students[sender].nTokens
      modifies this
      ensures Valid()
      ensures students == Transfer(old(students), sender, receiver, amount)
      ensures transactions == old(transactions) + [Entry(sender, receiver, amount)]
      ensures professors == old(professors) && classes == old(classes) && generations == old(generations)
    {
      TransferKeepsConsistent(students, professors, classes, generations, transactions, sender, receiver, amount);
      ghost var after := Transfer(students, sender, receiver, amount);
      var credited := Credit(students, receiver, amount);
      assert Credit(credited, sender, -amount) == after;
      students, transactions := Credit(credited, sender, -amount), transactions + [Entry(sender, receiver, amount)];
    }

    /** `INSERT INTO classes`. */
    method InsertClass(row: ClassRow)
      requires Valid() && row.profEmail in professors && row !in classes
      modifies this
      ensures Valid()
      ensures classes == old(classes) + [row]
      ensures students == old(students) && professors == old(professors)
      ensures generations == old(generations) && transactions == old(transactions)
    {
      NewClassKeepsConsistent(students, professors, classes, generations, transactions, row);
      classes := classes + [row];
    }

    /** `INSERT INTO students`; the balance column takes its default. */
    method InsertStudent(email: Email, s: Student)
      requires Valid() && email !in students && SchemaEmail(email) && s.nTokens == 0
      modifies this
      ensures Valid()
      ensures students == old(students)[email := s]
      ensures professors == old(professors) && classes == old(classes)
      ensures generations == old(generations) && transactions == old(transactions)
    {
      NewStudentKeepsConsistent(students, professors, classes, generations, transactions, email, s);
      students := students[email := s];
    }

    /** `INSERT INTO professors`. */
    method InsertProfessor(email: Email, p: Professor)
      requires Valid() && email !in professors && SchemaEmail(email)
      modifies this
      ensures Valid()
      ensures professors == old(professors)[email := p]
      ensures students == old(students) && classes == old(classes)
      ensures generations == old(generations) && transactions == old(transactions)
    {
      professors := professors[email := p];
    }

    /** The row update of the profile path, on `students`. */
    method ReplaceStudent(email: Email, s: Student)
      requires Valid() && email in students && s.nTokens == students[email].nTokens
      modifies this
      ensures Valid()
      ensures students == old(students)[email := s]
      ensures professors == old(professors) && classes == old(classes)
      ensures generations == old(generations) && transactions == old(transactions)
    {
      StudentEditKeepsConsistent(students, professors, classes, generations, transactions, email, s);
      students := students[email := s];
    }

    /** The row update of the profile path, on `professors`. */
    method ReplaceProfessor(email: Email, p: Professor)
      requires Valid() && email in professors
      modifies this
      ensures Valid()
      ensures professors == old(professors)[email := p]
      ensures students == old(students) && classes == old(classes)
      ensures generations == old(generations) && transactions == old(transactions)
    {
      assert professors[email := p].Keys == professors.Keys;
      professors := professors[email := p];
    }

    /** `POST /api/change_user_info` by the signed-in user `email` whose
        session role is `role`, with the password comparison awaited;
        `passwordMatches` is its result. The answer is the profile decision,
        and an accepted edit is applied to the caller's row. A student who
        changes `class` moves to that section's roster and leaderboard. */
    method EditProfile(role: Option<Role>, email: Email, field: string, value: string, password: string,
                       passwordMatches: bool) returns (o: EditOutcome)
      requires Valid()
      modifies this
      ensures Valid()
      ensures classes == old(classes) && generations == old(generations) && transactions == old(transactions)
      ensures o == ChangeUserInfo(role, field, value, password,
                                  HasAccount(old(students), old(professors), role, email), passwordMatches)
      ensures o.Refused? || field == "password" ==> students == old(students) && professors == old(professors)
      ensures o.Update? && role == Some(Stud) && field != "password" ==>
        && email in old(students)
        && students == old(students)[email := EditStudent(old(students)[email], field, value)]
        && professors == old(professors)
      ensures o.Update? && role == Some(Prof) && field != "password" ==>
        && email in old(professors)
        && professors == old(professors)[email := EditProfessor(old(professors)[email], field, value)]
        && students == old(students)
    {
      var hasRow := HasAccount(students, professors, role, email);
      o := ChangeUserInfo(role, field, value, password, hasRow, passwordMatches);
      if o.Update? && field != "password" {
        if role.value == Stud {
          ReplaceStudent(email, EditStudent(students[email], field, value));
        } else {
          ReplaceProfessor(email, EditProfessor(professors[email], field, value));
        }
      }
    }

    /** `POST /api/prof/take_tokens`: like a grant, but refused when the
        balance would drop below zero, and logged with a negative amount. */
    method ProfTakeTokens(prof: Email, target: Email, amount: AmountField) returns (o: Outcome)
      requires Valid() && prof in professors
      modifies this
      ensures Valid()
      ensures professors == old(professors) && classes == old(classes) && transactions == old(transactions)
      ensures CheckRequest(target, amount).Some? ==> o == Failed(CheckRequest(target, amount).value)
      ensures CheckRequest(target, amount) == None && target !in old(students) ==> o == Failed(TargetNotFound)
      ensures (CheckRequest(target, amount) == None && target in old(students) &&
               old(students)[target].nTokens - amount.n < 0) ==> o == Failed(NotEnoughTokens)
      ensures o == Done <==>
        CheckRequest(target, amount) == None && target in old(students) &&
        old(students)[target].nTokens >= amount.n
      ensures o.Failed? ==> students == old(students) && generations == old(generations)
      ensures o == Done ==>
        && students == Credit(old(students), target, -amount.n)
        && generations == old(generations) + [Entry(prof, target, -amount.n)]
    {
      var bad := CheckRequest(target, amount);
      if bad.Some? {
        o := Failed(bad.value);
      } else if target !in students {
        o := Failed(TargetNotFound);
      } else if students[target].nTokens - amount.n < 0 {
        o := Failed(NotEnoughTokens);
      } else {
        Generate(prof, target, -amount.n);
        o := Done;
      }
    }

    /** `POST /api/stud/give_tokens` by the signed-in student `sender`. The
        balance is checked before the target is looked up; a sender without
        a row makes the handler fail with an internal error. Sending to
        oneself is not refused. */
    method StudGiveTokens(sender: Email, target: Email, amount: AmountField) returns (o: Outcome)
      requires Valid()
      modifies this
      ensures Valid()
      ensures professors == old(professors) && classes == old(classes) && generations == old(generations)
      ensures CheckRequest(target, amount).Some? ==> o == Failed(CheckRequest(target, amount).value)
      ensures CheckRequest(target, amount) == None && sender !in old(students) ==> o == Failed(InternalError)
      ensures (CheckRequest(target, amount) == None && sender in old(students) &&
               old(students)[sender].nTokens < amount.n) ==> o == Failed(NotEnoughTokens)
      ensures (CheckRequest(target, amount) == None && sender in old(students) &&
               old(students)[sender].nTokens >= amount.n && target !in old(students)) ==> o == Failed(TargetNotFound)
      ensures o == Done <==>
        CheckRequest(target, amount) == None && sender in old(students) && target in old(students) &&
        old(students)[sender].nTokens >= amount.n
      ensures o.Failed? ==> students == old(students) && transactions == old(transactions)
      ensures o == Done ==>
        && students == Transfer(old(students), sender, target, amount.n)
        && transactions == old(transactions) + [Entry(sender, target, amount.n)]
    {
      var bad := CheckRequest(target, amount);
      if bad.Some? {
        o := Failed(bad.value);
      } else if sender !in students {
        o := Failed(InternalError);
      } else if students[sender].nTokens < amount.n {
        o := Failed(NotEnoughTokens);
      } else if target !in students {
        o := Failed(TargetNotFound);
      } else {
        Exchange(sender, target, amount.n);
        o := Done;
      }
    }

    /** `POST /api/add_class` by the signed-in professor `prof`. */
    method AddClass(prof: Email, section: string, subject: string) returns (o: Outcome)
      requires Valid() && prof in professors
      modifies this
      ensures Valid()
      ensures students == old(students) && professors == old(professors)
      ensures generations == old(generations) && transactions == old(transactions)
      ensures section == "" || subject == "" ==> o == Failed(MissingData)
      ensures section != "" && subject != "" && ClassRow(section, prof, subject) in old(classes) ==>
        o == Failed(ClassExists)
      ensures o == Done <==> section != "" && subject != "" && ClassRow(section, prof, subject) !in old(classes)
      ensures o.Failed? ==> classes == old(classes)
      ensures o == Done ==> classes == old(classes) + [ClassRow(section, prof, subject)]
    {
      var row := ClassRow(section, prof, subject);
      if section == "" || subject == "" {
        o := Failed(MissingData);
      } else {
        var mine := RowsOf(classes, prof);
        var alreadyExists := exists i :: 0 <= i < |mine| && mine[i].section == section && mine[i].subject == subject;
        AlreadyExistsIsMember(classes, row);
        if alreadyExists {
          o := Failed(ClassExists);
        } else {
          InsertClass(row);
          o := Done;
        }
      }
    }

    /** `POST /register/:role`. `role` is `None` for a path segment other
        than `stud` or `prof`; `studClass` is `None` when the form does not
        send the field. The password hash is not stored in the model. */
    method Register(role: Option<Role>, email: Email, password: string, name: string, surname: string,
                    studClass: Option<string>) returns (o: Outcome)
      requires Valid()
      modifies this
      ensures Valid()
      ensures classes == old(classes) && generations == old(generations) && transactions == old(transactions)
      ensures CheckForm(email, password, name, surname, studClass).Some? ==>
        o == Failed(Form(CheckForm(email, password, name, surname, studClass).value))
      ensures (CheckForm(email, password, name, surname, studClass) == None && role == Some(Stud) &&
               !(studClass.Some? && HasSection(old(classes), studClass.value))) ==> o == Failed(ClassNotFound)
      ensures CheckForm(email, password, name, surname, studClass) == None && role == None ==>
        o == Failed(RoleNotValid)
      ensures (CheckForm(email, password, name, surname, studClass) == None && role == Some(Stud) &&
               studClass.Some? && HasSection(old(classes), studClass.value) && email in old(students)) ==>
        o == Failed(EmailUsed)
      ensures (CheckForm(email, password, name, surname, studClass) == None && role == Some(Prof) &&
               email in old(professors)) ==> o == Failed(EmailUsed)
      ensures o == Done <==>
        && CheckForm(email, password, name, surname, studClass) == None
        && (role == Some(Stud) ==>
              studClass.Some? && HasSection(old(classes), studClass.value) && email !in old(students))
        && (role == Some(Prof) ==> email !in old(professors))
        && role != None
      ensures o.Failed? ==> students == old(students) && professors == old(professors)
      ensures o == Done && role == Some(Stud) ==>
        students == old(students)[email := Student(name, surname, studClass.value, 0)] &&
        professors == old(professors)
      ensures o == Done && role == Some(Prof) ==>
        professors == old(professors)[email := Professor(name, surname)] && students == old(students)
    {
      var formError := CheckForm(email, password, name, surname, studClass);
      if formError.Some? {
        o := Failed(Form(formError.value));
      } else if role == Some(Stud) && !(studClass.Some? && HasSection(classes, studClass.value)) {
        o := Failed(ClassNotFound);
      } else if role == None {
        o := Failed(RoleNotValid);
      } else if role.value == Stud {
        if email in students {
          o := Failed(EmailUsed);
        } else {
          EmailCheckIsPattern(email);
          ValidEmailFitsSchema(email);
          InsertStudent(email, Student(name, surname, studClass.value, 0));
          o := Done;
        }
      } else if email in professors {
        o := Failed(EmailUsed);
      } else {
        EmailCheckIsPattern(email);
        ValidEmailFitsSchema(email);
        InsertProfessor(email, Professor(name, surname));
        o := Done;
      }
    }

    /** `GET /api/classes` for the signed-in professor `prof`: one group per
        section the professor teaches, in the order the sections first
        appear among the professor's rows. */
    method ClassRoster(prof: Email) returns (data: seq<Group>)
      ensures |data| == |Sections(RowsOf(classes, prof))|
      ensures forall j :: 0 <= j < |data| ==>
        && data[j].section == Sections(RowsOf(classes, prof))[j]
        && data[j].subject == Join(Subjects(RowsOf(classes, prof), data[j].section), SubjectSeparator)
        && IsClassList(data[j].students, students, data[j].section)
    {
      var rawClasses := RowsOf(classes, prof);
      var keys, sectionMap := GroupRows(rawClasses);
      data := [];
      var j := 0;
      while j < |keys|
        invariant 0 <= j <= |keys|
        invariant |data| == j
        invariant forall m :: 0 <= m < j ==> Describes(data[m], rawClasses, keys[m], students)
      {
        var section := keys[j];
        var rows := SelectClass(students, section);
        var group := Group(section, Join(sectionMap[section], SubjectSeparator), rows);
        assert Describes(group, rawClasses, section, students);
        forall m | 0 <= m < j + 1 ensures Describes((data + [group])[m], rawClasses, keys[m], students) {
          if m < j {
            assert (data + [group])[m] == data[m];
          }
        }
        data := data + [group];
        j := j + 1;
      }
    }

    /** `GET /api/leaderboard` for the signed-in student `email`: the
        students of the caller's class, highest balance first. A caller
        without a row gets no answer. */
    method Leaderboard(email: Email) returns (r: Option<seq<StudentRow>>)
      ensures r.None? <==> email !in students
      ensures r.Some? ==> IsClassList(r.value, students, students[email].section)
    {
      if email !in students {
        return None;
      }
      var rows := SelectClass(students, students[email].section);
      r := Some(rows);
    }
  }

  // ------------------------------------------------------------ history

  datatype Side = AsSender | AsReceiver | AsEither

  predicate Involves(x: Entry, e: Email, side: Side)
  {
    match side
    case AsSender => x.sender == e
    case AsReceiver => x.receiver == e
    case AsEither => x.sender == e || x.receiver == e
  }

  /** The history queries (`ORDER BY date DESC`): the entries involving `e`
      on the given side, newest first, with append order standing in for
      the timestamps. */
  function NewestFirst(log: seq<Entry>, e: Email, side: Side): (r: seq<Entry>)
    ensures forall x :: x in r <==> x in log && Involves(x, e, side)
    ensures |r| <= |log|
  {
    if log == [] then []
    else
      var init, last := log[..|log| - 1], log[|log| - 1];
      assert log == init + [last];
      (if Involves(last, e, side) then [last] else []) + NewestFirst(init, e, side)
  }

  /** The positions in `log` of the entries involving `e` on the given
      side, latest first. */
  function Positions(log: seq<Entry>, e: Email, side: Side): (idx: seq<nat>)
    ensures forall i :: 0 <= i < |idx| ==> idx[i] < |log|
  {
    if log == [] then []
    else
      var n := |log| - 1;
      (if Involves(log[n], e, side) then [n] else []) + Positions(log[..n], e, side)
  }

  /** The positions are those of all the entries involving `e`, each once,
      in strictly decreasing order. */
  lemma {:induction false} PositionsSpec(log: seq<Entry>, e: Email, side: Side)
    ensures forall i :: 0 <= i < |Positions(log, e, side)| ==> Involves(log[Positions(log, e, side)[i]], e, side)
    ensures forall i, j :: 0 <= i < j < |Positions(log, e, side)| ==>
      Positions(log, e, side)[i] > Positions(log, e, side)[j]
    ensures forall k :: 0 <= k < |log| && Involves(log[k], e, side) ==> k in Positions(log, e, side)
  {
    if log != [] {
      var init, n := log[..|log| - 1], |log| - 1;
      PositionsSpec(init, e, side);
      var rest := Positions(init, e, side);
      assert forall i :: 0 <= i < |rest| ==> log[rest[i]] == init[rest[i]];
      assert forall k :: 0 <= k < n ==> log[k] == init[k];
    }
  }

  /** The history lists the log entries at those positions, in that order:
      the latest logged entry first. */
  lemma {:induction false} NewestFirstOrder(log: seq<Entry>, e: Email, side: Side)
    ensures |NewestFirst(log, e, side)| == |Positions(log, e, side)|
    ensures forall i :: 0 <= i < |Positions(log, e, side)| ==>
      NewestFirst(log, e, side)[i] == log[Positions(log, e, side)[i]]
  {
    if log != [] {
      var init, last := log[..|log| - 1], log[|log| - 1];
      assert log == init + [last];
      NewestFirstOrder(init, e, side);
      if Involves(last, e, side) {
        OrderStepInvolved(init, last, e, side);
      } else {
        OrderStepSkipped(init, last, e, side);
      }
    }
  }

  /** One more entry that involves `e` heads both the history and the
      positions. */
  lemma OrderStepInvolved(init: seq<Entry>, last: Entry, e: Email, side: Side)
    requires Involves(last, e, side)
    requires |NewestFirst(init, e, side)| == |Positions(init, e, side)|
    requires forall i :: 0 <= i < |Positions(init, e, side)| ==>
      NewestFirst(init, e, side)[i] == init[Positions(init, e, side)[i]]
    ensures |NewestFirst(init + [last], e, side)| == |Positions(init + [last], e, side)|
    ensures forall i :: 0 <= i < |Positions(init + [last], e, side)| ==>
      NewestFirst(init + [last], e, side)[i] == (init + [last])[Positions(init + [last], e, side)[i]]
  {
    var log, n := init + [last], |init|;
    assert log[..n] == init && log[n] == last;
    var older, rest := NewestFirst(init, e, side), Positions(init, e, side);
    var r, ps := NewestFirst(log, e, side), Positions(log, e, side);
    assert r == [last] + older;
    assert ps == [n] + rest;
    AlignedCons(init, last, older, rest);
  }

  /** Entries picked out of `init` by `rest` stay picked out of
      `init + [last]`, and the new last entry is picked by its position. */
  lemma AlignedCons(init: seq<Entry>, last: Entry, older: seq<Entry>, rest: seq<nat>)
    requires |older| == |rest|
    requires forall i :: 0 <= i < |rest| ==> rest[i] < |init| && older[i] == init[rest[i]]
    ensures forall i :: 0 <= i < |rest| + 1 ==>
      ([|init|] + rest)[i] < |init| + 1 && ([last] + older)[i] == (init + [last])[([|init|] + rest)[i]]
  {
    forall i | 0 <= i < |rest| + 1
      ensures ([|init|] + rest)[i] < |init| + 1 && ([last] + older)[i] == (init + [last])[([|init|] + rest)[i]]
    {
      if i > 0 {
        assert ([|init|] + rest)[i] == rest[i - 1];
        assert ([last] + older)[i] == older[i - 1];
      }
    }
  }

  /** One more entry that does not involve `e` changes neither the history
      nor the positions. */
  lemma OrderStepSkipped(init: seq<Entry>, last: Entry, e: Email, side: Side)
    requires !Involves(last, e, side)
    requires |NewestFirst(init, e, side)| == |Positions(init, e, side)|
    requires forall i :: 0 <= i < |Positions(init, e, side)| ==>
      NewestFirst(init, e, side)[i] == init[Positions(init, e, side)[i]]
    ensures |NewestFirst(init + [last], e, side)| == |Positions(init + [last], e, side)|
    ensures forall i :: 0 <= i < |Positions(init + [last], e, side)| ==>
      NewestFirst(init + [last], e, side)[i] == (init + [last])[Positions(init + [last], e, side)[i]]
  {
    var log, n := init + [last], |init|;
    assert log[..n] == init && log[n] == last;
    var rest := Positions(init, e, side);
    assert NewestFirst(log, e, side) == NewestFirst(init, e, side);
    assert Positions(log, e, side) == rest;
    forall i | 0 <= i < |rest| ensures log[rest[i]] == init[rest[i]] {
    }
  }
}

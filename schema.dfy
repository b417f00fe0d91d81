/** The rows of the database tables and the arithmetic of balances: how a
    balance is rebuilt from the two logs, how an `UPDATE ... SET nTokens =
    nTokens + ?` changes the table, and the sum of all balances. */
module Schema {

  type Email = string

  /** A row of `students`; `section` is the column named `class`. */
  datatype Student = Student(name: string, surname: string, section: string, nTokens: int)

  /** A row of `professors`. */
  datatype Professor = Professor(name: string, surname: string)

  /** A row of `classes`: professor `profEmail` teaches `subject` in `section`. */
  datatype ClassRow = ClassRow(section: string, profEmail: Email, subject: string)

  /** A row of `generations` or of `transactions`. */
  datatype Entry = Entry(sender: Email, receiver: Email, amount: int)

  /** Sum of the amounts of the entries addressed to `e`. */
  function Received(log: seq<Entry>, e: Email): int
  {
    if log == [] then 0
    else
      var last := log[|log| - 1];
      Received(log[..|log| - 1], e) + (if last.receiver == e then last.amount else 0)
  }

  /** Sum of the amounts of the entries sent by `e`. */
  function Sent(log: seq<Entry>, e: Email): int
  {
    if log == [] then 0
    else
      var last := log[|log| - 1];
      Sent(log[..|log| - 1], e) + (if last.sender == e then last.amount else 0)
  }

  /** Sum of all amounts in a log. */
  function Issued(log: seq<Entry>): int
  {
    if log == [] then 0 else Issued(log[..|log| - 1]) + log[|log| - 1].amount
  }

  /** The balance of `e` rebuilt from the logs: every grant and revocation
      addressed to it, plus the transfers it received, minus those it sent. */
  function Replay(generations: seq<Entry>, transactions: seq<Entry>, e: Email): int
  {
    Received(generations, e) + Received(transactions, e) - Sent(transactions, e)
  }

  lemma ReplayAppendGeneration(gens: seq<Entry>, txs: seq<Entry>, x: Entry, e: Email)
    ensures Replay(gens + [x], txs, e) == Replay(gens, txs, e) + (if x.receiver == e then x.amount else 0)
    ensures Issued(gens + [x]) == Issued(gens) + x.amount
  {
    assert (gens + [x])[..|gens|] == gens;
  }

  lemma ReplayAppendTransaction(gens: seq<Entry>, txs: seq<Entry>, x: Entry, e: Email)
    ensures Replay(gens, txs + [x], e) ==
      Replay(gens, txs, e) + (if x.receiver == e then x.amount else 0) - (if x.sender == e then x.amount else 0)
  {
    assert (txs + [x])[..|txs|] == txs;
  }

  /** An address no entry mentions has a replayed balance of zero. */
  lemma {:induction false} ReplayUnmentioned(gens: seq<Entry>, txs: seq<Entry>, e: Email)
    requires forall i :: 0 <= i < |gens| ==> gens[i].receiver != e
    requires forall i :: 0 <= i < |txs| ==> txs[i].receiver != e && txs[i].sender != e
    ensures Replay(gens, txs, e) == 0
    decreases |gens| + |txs|
  {
    if gens != [] {
      ReplayUnmentioned(gens[..|gens| - 1], [], e);
    }
    if txs != [] {
      ReplayUnmentioned([], txs[..|txs| - 1], e);
    }
  }

  /** `UPDATE students SET nTokens = nTokens + delta WHERE email = e`. */
  function Credit(m: map<Email, Student>, e: Email, delta: int): (r: map<Email, Student>)
    requires e in m
    ensures r.Keys == m.Keys
    ensures r[e] == m[e].(nTokens := m[e].nTokens + delta)
    ensures forall k :: k in m && k != e ==> r[k] == m[k]
  {
    m[e := m[e].(nTokens := m[e].nTokens + delta)]
  }

  /** Sum of the balances of all students. */
  ghost function TotalTokens(m: map<Email, Student>): int
    decreases |m|
  {
    if m == map[] then 0
    else
      var e :| e in m;
      m[e].nTokens + TotalTokens(m - {e})
  }

  /** The sum can be split at any row, not only the one the definition picks. */
  lemma {:induction false} TotalTokensSplit(m: map<Email, Student>, e: Email)
    requires e in m
    ensures TotalTokens(m) == m[e].nTokens + TotalTokens(m - {e})
    decreases |m|
  {
    var k :| k in m && TotalTokens(m) == m[k].nTokens + TotalTokens(m - {k});
    if k != e {
      TotalTokensSplit(m - {k}, e);
      TotalTokensSplit(m - {e}, k);
      assert m - {k} - {e} == m - {e} - {k};
    }
  }

  /** Crediting one row by `delta` raises the sum by exactly `delta`. */
  lemma CreditTotal(m: map<Email, Student>, e: Email, delta: int)
    requires e in m
    ensures TotalTokens(Credit(m, e, delta)) == TotalTokens(m) + delta
  {
    var r := Credit(m, e, delta);
    TotalTokensSplit(m, e);
    TotalTokensSplit(r, e);
    assert r - {e} == m - {e};
  }

  /** Inserting a new row adds its balance to the sum. */
  lemma InsertTotal(m: map<Email, Student>, e: Email, s: Student)
    requires e !in m
    ensures TotalTokens(m[e := s]) == TotalTokens(m) + s.nTokens
  {
    TotalTokensSplit(m[e := s], e);
    assert m[e := s] - {e} == m;
  }

  /** Replacing a row changes the sum by the difference of the balances. */
  lemma ReplaceTotal(m: map<Email, Student>, e: Email, s: Student)
    requires e in m
    ensures TotalTokens(m[e := s]) == TotalTokens(m) - m[e].nTokens + s.nTokens
  {
    TotalTokensSplit(m, e);
    TotalTokensSplit(m[e := s], e);
    assert m[e := s] - {e} == m - {e};
  }

  /** The two updates of a student transfer: credit the receiver, then
      debit the sender, each reading the balance the previous one left. */
  function Transfer(m: map<Email, Student>, sender: Email, receiver: Email, amount: int): map<Email, Student>
    requires sender in m && receiver in m
  {
    Credit(Credit(m, receiver, amount), sender, -amount)
  }

  /** A transfer keeps the sum of all balances: the credit adds `amount`
      and the debit takes it away again. */
  lemma TransferTotal(m: map<Email, Student>, sender: Email, receiver: Email, amount: int)
    requires sender in m && receiver in m
    ensures TotalTokens(Transfer(m, sender, receiver, amount)) == TotalTokens(m)
  {
    CreditTotal(m, receiver, amount);
    CreditTotal(Credit(m, receiver, amount), sender, -amount);
  }

  /** A transfer moves `amount` from sender to receiver, is a no-op on the
      table when both are the same student, touches no other row, and keeps
      the sum of all balances. */
  lemma TransferEffect(m: map<Email, Student>, sender: Email, receiver: Email, amount: int)
    requires sender in m && receiver in m
    ensures Transfer(m, sender, receiver, amount).Keys == m.Keys
    ensures sender != receiver ==>
      Transfer(m, sender, receiver, amount)[sender].nTokens == m[sender].nTokens - amount &&
      Transfer(m, sender, receiver, amount)[receiver].nTokens == m[receiver].nTokens + amount
    ensures sender == receiver ==> Transfer(m, sender, receiver, amount) == m
    ensures forall k :: k in m && k != sender && k != receiver ==> Transfer(m, sender, receiver, amount)[k] == m[k]
    ensures TotalTokens(Transfer(m, sender, receiver, amount)) == TotalTokens(m)
  {
    var m1 := Credit(m, receiver, amount);
    var m2 := Credit(m1, sender, -amount);
    assert m2 == Transfer(m, sender, receiver, amount);
    assert m1.Keys == m.Keys && m1[receiver].nTokens == m[receiver].nTokens + amount;
    if sender == receiver {
      assert m2 == m;
    }
    TransferTotal(m, sender, receiver, amount);
  }
}

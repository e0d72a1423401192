/** The per-user store of PDF passwords: up to one encrypted password per
    (user, priority) slot, listed and decrypted in ascending priority.

    The table is a sequence of rows in primary-key order together with the
    next key the database hands out. Encryption and decryption are oracles
    (`encrypt` draws a random nonce, so its output is not a function of its
    input in the source; the model fixes one outcome per call). Database
    failures other than "record not found" are not modelled. */
module PdfPasswordService {
  import opened Wrappers
  import opened Sorting

  /** A row of the password table. */
  datatype PdfPassword = PdfPassword(id: nat, userId: nat, encrypted: string, priority: int, labelText: string)

  /** The table in primary-key order, and the key the next insert gets. */
  datatype Store = Store(rows: seq<PdfPassword>, nextId: nat)

  datatype PasswordInput = PasswordInput(password: string, priority: int, labelText: string)

  /** How a row is listed: neither the plaintext nor the ciphertext, only
      whether a ciphertext is stored. */
  datatype PasswordResponse = PasswordResponse(id: nat, priority: int, labelText: string, hasValue: bool)

  /** The table after a write, and the error the write returned, if any. */
  datatype Outcome = Outcome(store: Store, error: Option<string>)

  const PasswordNotFound: string := "password not found"

  predicate InSlot(p: PdfPassword, userId: nat, priority: int) {
    p.userId == userId && p.priority == priority
  }

  /** The table as the service keeps it: keys increasing and below the next
      key, and at most one row per slot. */
  ghost predicate Valid(st: Store) {
    && (forall i, j :: 0 <= i < j < |st.rows| ==> st.rows[i].id < st.rows[j].id)
    && (forall i :: 0 <= i < |st.rows| ==> st.rows[i].id < st.nextId)
    && (forall i, j :: 0 <= i < j < |st.rows| ==> !InSlot(st.rows[j], st.rows[i].userId, st.rows[i].priority))
  }

  // ---------------------------------------------------------------------
  // Slots

  /** The position of the first row of a slot, the row `First` returns. */
  function FindSlot(rows: seq<PdfPassword>, userId: nat, priority: int): (r: Option<nat>)
    ensures r.Some? ==> r.value < |rows| && InSlot(rows[r.value], userId, priority)
    ensures r.Some? ==> forall j :: 0 <= j < r.value ==> !InSlot(rows[j], userId, priority)
    ensures r.None? <==> forall j :: 0 <= j < |rows| ==> !InSlot(rows[j], userId, priority)
  {
    if |rows| == 0 then None
    else if InSlot(rows[0], userId, priority) then Some(0)
    else
      match FindSlot(rows[1..], userId, priority)
      case None =>
        assert forall j :: 1 <= j < |rows| ==> rows[j] == rows[1..][j - 1];
        None
      case Some(k) =>
        assert forall j :: 1 <= j < k + 1 ==> rows[j] == rows[1..][j - 1];
        Some(k + 1)
  }

  /** The row stored in a slot, if any. */
  function Entry(st: Store, userId: nat, priority: int): Option<PdfPassword> {
    match FindSlot(st.rows, userId, priority)
    case None => None
    case Some(k) => Some(st.rows[k])
  }

  /** Rows with the same users and priorities in the same places have the
      same slots. */
  lemma SameSlots(a: seq<PdfPassword>, b: seq<PdfPassword>, userId: nat, priority: int)
    requires |a| == |b|
    requires forall i :: 0 <= i < |a| ==> a[i].userId == b[i].userId && a[i].priority == b[i].priority
    ensures FindSlot(a, userId, priority) == FindSlot(b, userId, priority)
  {
    var fa := FindSlot(a, userId, priority);
    var fb := FindSlot(b, userId, priority);
    if fa.Some? {
      assert InSlot(b[fa.value], userId, priority);
    }
    if fb.Some? {
      assert InSlot(a[fb.value], userId, priority);
    }
  }

  /** A row appended after the others is found only when no earlier row
      holds its slot. */
  lemma FindSlotAppend(rows: seq<PdfPassword>, x: PdfPassword, userId: nat, priority: int)
    ensures FindSlot(rows + [x], userId, priority) ==
      if FindSlot(rows, userId, priority).Some? then FindSlot(rows, userId, priority)
      else if InSlot(x, userId, priority) then Some(|rows|)
      else None
  {
    var s := rows + [x];
    assert forall j :: 0 <= j < |rows| ==> s[j] == rows[j];
    assert s[|rows|] == x;
    var f := FindSlot(s, userId, priority);
    var g := FindSlot(rows, userId, priority);
    if f.Some? && f.value < |rows| {
      assert InSlot(rows[f.value], userId, priority);
    }
  }

  // ---------------------------------------------------------------------
  // SetPassword

  /** `SetPassword`: encrypt, then update the slot's row in place (new
      ciphertext and label) or insert a new row when the slot is empty. A
      failed encryption is returned and nothing is written. */
  function SetPassword(st: Store, encrypt: string -> Result<string>, userId: nat, input: PasswordInput): (r: Outcome)
    ensures encrypt(input.password).Err? ==> r == Outcome(st, Some(encrypt(input.password).msg))
    ensures encrypt(input.password).Ok? ==> r.error.None?
    ensures |st.rows| <= |r.store.rows| <= |st.rows| + 1
  {
    match encrypt(input.password)
    case Err(e) => Outcome(st, Some(e))
    case Ok(enc) =>
      match FindSlot(st.rows, userId, input.priority)
      case None =>
        Outcome(Store(st.rows + [PdfPassword(st.nextId, userId, enc, input.priority, input.labelText)], st.nextId + 1), None)
      case Some(k) =>
        Outcome(st.(rows := st.rows[k := st.rows[k].(encrypted := enc, labelText := input.labelText)]), None)
  }

  /** After a successful `SetPassword` the slot holds the new ciphertext and
      label; an existing row keeps its key, a new row gets the next key. */
  lemma SetPasswordWrites(st: Store, encrypt: string -> Result<string>, userId: nat, input: PasswordInput)
    requires encrypt(input.password).Ok?
    ensures var after := SetPassword(st, encrypt, userId, input).store;
      var enc := encrypt(input.password).value;
      var id := if Entry(st, userId, input.priority).Some? then Entry(st, userId, input.priority).value.id else st.nextId;
      Entry(after, userId, input.priority) == Some(PdfPassword(id, userId, enc, input.priority, input.labelText))
  {
    var enc := encrypt(input.password).value;
    var after := SetPassword(st, encrypt, userId, input).store;
    match FindSlot(st.rows, userId, input.priority)
    case None =>
      FindSlotAppend(st.rows, PdfPassword(st.nextId, userId, enc, input.priority, input.labelText), userId, input.priority);
    case Some(k) =>
      SameSlots(st.rows, after.rows, userId, input.priority);
  }

  /** Every other slot is left as it was. */
  lemma SetPasswordKeepsOthers(st: Store, encrypt: string -> Result<string>, userId: nat, input: PasswordInput,
                               u: nat, p: int)
    requires u != userId || p != input.priority
    ensures Entry(SetPassword(st, encrypt, userId, input).store, u, p) == Entry(st, u, p)
  {
    var after := SetPassword(st, encrypt, userId, input).store;
    match encrypt(input.password)
    case Err(_) =>
    case Ok(enc) =>
      match FindSlot(st.rows, userId, input.priority)
      case None =>
        FindSlotAppend(st.rows, PdfPassword(st.nextId, userId, enc, input.priority, input.labelText), u, p);
      case Some(k) =>
        SameSlots(st.rows, after.rows, u, p);
        var f := FindSlot(st.rows, u, p);
        if f.Some? {
          assert f.value != k;
        }
  }

  /** `SetPassword` keeps the table well-formed. */
  lemma SetPasswordValid(st: Store, encrypt: string -> Result<string>, userId: nat, input: PasswordInput)
    requires Valid(st)
    ensures Valid(SetPassword(st, encrypt, userId, input).store)
  {
    match encrypt(input.password)
    case Err(_) =>
    case Ok(enc) =>
      match FindSlot(st.rows, userId, input.priority)
      case None =>
        AppendRowValid(st, PdfPassword(st.nextId, userId, enc, input.priority, input.labelText));
      case Some(k) =>
        ReplaceRowValid(st, k, st.rows[k].(encrypted := enc, labelText := input.labelText));
  }

  /** A new row in an unused slot, under the next key, keeps the table valid. */
  lemma AppendRowValid(st: Store, x: PdfPassword)
    requires Valid(st) && x.id == st.nextId
    requires forall i :: 0 <= i < |st.rows| ==> !InSlot(st.rows[i], x.userId, x.priority)
    ensures Valid(Store(st.rows + [x], st.nextId + 1))
  {
    var rows := st.rows + [x];
    forall i, j | 0 <= i < j < |rows|
      ensures !InSlot(rows[j], rows[i].userId, rows[i].priority)
    {
      if j == |st.rows| {
        assert !InSlot(st.rows[i], x.userId, x.priority);
      } else {
        assert rows[i] == st.rows[i] && rows[j] == st.rows[j];
      }
    }
  }

  /** Rewriting a row in place, with its key and slot kept, keeps the table valid. */
  lemma ReplaceRowValid(st: Store, k: nat, x: PdfPassword)
    requires Valid(st) && k < |st.rows|
    requires x.id == st.rows[k].id && InSlot(x, st.rows[k].userId, st.rows[k].priority)
    ensures Valid(st.(rows := st.rows[k := x]))
  {
    var rows := st.rows[k := x];
    assert forall i :: 0 <= i < |st.rows| ==>
      rows[i].id == st.rows[i].id && InSlot(rows[i], st.rows[i].userId, st.rows[i].priority);
  }

  // ---------------------------------------------------------------------
  // Listing and decrypting

  function Priority(p: PdfPassword): int {
    p.priority
  }

  /** A user's rows in table order. */
  function UserRows(rows: seq<PdfPassword>, userId: nat): (r: seq<PdfPassword>)
    ensures |r| <= |rows|
    ensures forall x :: x in r <==> x in rows && x.userId == userId
  {
    if |rows| == 0 then []
    else
      assert rows == [rows[0]] + rows[1..];
      (if rows[0].userId == userId then [rows[0]] else []) + UserRows(rows[1..], userId)
  }

  /** A user's rows by ascending priority, as the query orders them. */
  function ByPriority(st: Store, userId: nat): (r: seq<PdfPassword>)
    ensures SortedBy(r, Priority)
    ensures multiset(r) == multiset(UserRows(st.rows, userId))
  {
    var rows := UserRows(st.rows, userId);
    SortBySorted(rows, Priority);
    SortByElements(rows, Priority);
    SortBy(rows, Priority)
  }

  function Response(p: PdfPassword): PasswordResponse {
    PasswordResponse(p.id, p.priority, p.labelText, p.encrypted != "")
  }

  function Responses(rows: seq<PdfPassword>): (r: seq<PasswordResponse>)
    ensures |r| == |rows|
  {
    seq(|rows|, k requires 0 <= k < |rows| => Response(rows[k]))
  }

  /** The responses for a priority-ordered permutation of `pool`: ordered,
      and each one a row of `pool` and every row of `pool` answered. */
  lemma ResponsesOfSorted(rows: seq<PdfPassword>, pool: seq<PdfPassword>)
    requires SortedBy(rows, Priority) && multiset(rows) == multiset(pool)
    ensures forall i, j :: 0 <= i < j < |rows| ==> Responses(rows)[i].priority <= Responses(rows)[j].priority
    ensures forall y :: y in Responses(rows) ==> exists x :: x in pool && y == Response(x)
    ensures forall x :: x in pool ==> Response(x) in Responses(rows)
  {
    var r := Responses(rows);
    forall i, j | 0 <= i < j < |rows|
      ensures r[i].priority <= r[j].priority
    {
      assert Priority(rows[i]) <= Priority(rows[j]);
    }
    forall y | y in r
      ensures exists x :: x in pool && y == Response(x)
    {
      var k :| 0 <= k < |r| && r[k] == y;
      assert rows[k] in multiset(rows);
      assert rows[k] in pool && y == Response(rows[k]);
    }
    forall x | x in pool
      ensures Response(x) in r
    {
      assert x in multiset(rows);
      var k :| 0 <= k < |rows| && rows[k] == x;
      assert r[k] == Response(x);
    }
  }

  /** `GetPasswords`: each of the user's rows once, by ascending priority,
      with neither plaintext nor ciphertext. */
  function GetPasswords(st: Store, userId: nat): (r: seq<PasswordResponse>)
    ensures forall i, j :: 0 <= i < j < |r| ==> r[i].priority <= r[j].priority
    ensures forall y :: y in r ==> exists x :: x in st.rows && x.userId == userId && y == Response(x)
    ensures forall x :: x in st.rows && x.userId == userId ==> Response(x) in r
    ensures |r| == |UserRows(st.rows, userId)|
    ensures multiset(r) == multiset(Responses(UserRows(st.rows, userId)))
  {
    var rows := ByPriority(st, userId);
    ResponsesOfSorted(rows, UserRows(st.rows, userId));
    ResponsesPermutation(rows, UserRows(st.rows, userId));
    Responses(rows)
  }

  lemma ResponsesAppend(a: seq<PdfPassword>, b: seq<PdfPassword>)
    ensures Responses(a + b) == Responses(a) + Responses(b)
  {
    var l, r := Responses(a + b), Responses(a) + Responses(b);
    forall k | 0 <= k < |l|
      ensures l[k] == r[k]
    {
      if k < |a| {
        assert (a + b)[k] == a[k];
      } else {
        assert (a + b)[k] == b[k - |a|];
      }
    }
  }

  /** Rows that are a permutation of each other are answered by a
      permutation of the same responses. */
  lemma {:induction false} ResponsesPermutation(a: seq<PdfPassword>, b: seq<PdfPassword>)
    requires multiset(a) == multiset(b)
    ensures multiset(Responses(a)) == multiset(Responses(b))
    decreases |a|
  {
    if |a| == 0 {
      assert |b| == |multiset(b)| == 0;
    } else {
      var i := RemoveFirst(a, b);
      var rest := b[..i] + b[i + 1..];
      ResponsesPermutation(a[1..], rest);
      ResponsesDropAt(b, i);
      ResponsesCons(a);
      var ra, rb := multiset(Responses(a)), multiset(Responses(b));
      assert ra == multiset(Responses(a[1..])) + multiset{Response(a[0])};
      assert rb == multiset(Responses(rest)) + multiset{Response(a[0])};
    }
  }

  lemma ResponsesCons(s: seq<PdfPassword>)
    requires |s| > 0
    ensures multiset(Responses(s)) == multiset(Responses(s[1..])) + multiset{Response(s[0])}
  {
    assert s == [s[0]] + s[1..];
    ResponsesAppend([s[0]], s[1..]);
    assert Responses([s[0]]) == [Response(s[0])];
  }

  /** Where the first element of `a` sits in a permutation `b` of it, and
      that the rests are permutations of each other. */
  lemma RemoveFirst<T>(a: seq<T>, b: seq<T>) returns (i: nat)
    requires |a| > 0 && multiset(a) == multiset(b)
    ensures i < |b| && b[i] == a[0]
    ensures multiset(a[1..]) == multiset(b[..i] + b[i + 1..])
  {
    assert a[0] in multiset(b);
    i :| 0 <= i < |b| && b[i] == a[0];
    DropAt(a, 0);
    DropAt(b, i);
    assert a[..0] + a[1..] == a[1..];
    Cancel(multiset(a[1..]), multiset(b[..i] + b[i + 1..]), a[0]);
  }

  lemma DropAt<T>(s: seq<T>, i: nat)
    requires i < |s|
    ensures multiset(s[..i] + s[i + 1..]) + multiset{s[i]} == multiset(s)
  {
    assert s == s[..i] + [s[i]] + s[i + 1..];
  }

  lemma Cancel<T>(p: multiset<T>, q: multiset<T>, x: T)
    requires p + multiset{x} == q + multiset{x}
    ensures p == q
  {
    assert p == (p + multiset{x}) - multiset{x};
    assert q == (q + multiset{x}) - multiset{x};
  }

  lemma ResponsesDropAt(s: seq<PdfPassword>, i: nat)
    requires i < |s|
    ensures multiset(Responses(s)) == multiset(Responses(s[..i] + s[i + 1..])) + multiset{Response(s[i])}
  {
    var before, after := s[..i], s[i + 1..];
    assert s == before + [s[i]] + after;
    ResponsesAppend(before + [s[i]], after);
    ResponsesAppend(before, [s[i]]);
    ResponsesAppend(before, after);
    assert Responses([s[i]]) == [Response(s[i])];
  }

  /** What one row gives the parser: its plaintext, or nothing when the
      ciphertext is empty or does not decrypt. */
  function Plaintext(p: PdfPassword, decrypt: string -> Result<string>): (r: seq<string>)
    ensures |r| <= 1
    ensures p.encrypted == "" || decrypt(p.encrypted).Err? ==> r == []
    ensures p.encrypted != "" && decrypt(p.encrypted).Ok? ==> r == [decrypt(p.encrypted).value]
  {
    if p.encrypted == "" then []
    else
      match decrypt(p.encrypted)
      case Err(_) => []
      case Ok(t) => [t]
  }

  function DecryptAll(rows: seq<PdfPassword>, decrypt: string -> Result<string>): (r: seq<string>)
    ensures |r| <= |rows|
  {
    if |rows| == 0 then [] else Plaintext(rows[0], decrypt) + DecryptAll(rows[1..], decrypt)
  }

  /** A row holds a ciphertext that decrypts to `t`. */
  predicate DecryptsTo(x: PdfPassword, decrypt: string -> Result<string>, t: string) {
    x.encrypted != "" && decrypt(x.encrypted) == Ok(t)
  }

  /** Exactly the plaintexts of the rows that decrypt come out. */
  lemma {:induction false} DecryptAllSound(rows: seq<PdfPassword>, decrypt: string -> Result<string>)
    ensures forall t :: t in DecryptAll(rows, decrypt) <==> exists x :: x in rows && DecryptsTo(x, decrypt, t)
    decreases |rows|
  {
    if |rows| > 0 {
      DecryptAllSound(rows[1..], decrypt);
      var head, rest := Plaintext(rows[0], decrypt), DecryptAll(rows[1..], decrypt);
      assert DecryptAll(rows, decrypt) == head + rest;
      forall t
        ensures t in head + rest <==> exists x :: x in rows && DecryptsTo(x, decrypt, t)
      {
        if t in head {
          assert DecryptsTo(rows[0], decrypt, t);
        } else if t in rest {
          var x :| x in rows[1..] && DecryptsTo(x, decrypt, t);
          assert x in rows;
        }
      }
    }
  }

  /** `GetDecryptedPasswords`: the plaintexts of the user's rows by
      ascending priority, rows that give none skipped silently. */
  function GetDecryptedPasswords(st: Store, decrypt: string -> Result<string>, userId: nat): (r: seq<string>)
    ensures |r| <= |UserRows(st.rows, userId)|
    ensures forall t :: t in r <==> exists x :: x in st.rows && x.userId == userId && DecryptsTo(x, decrypt, t)
  {
    var rows := ByPriority(st, userId);
    DecryptAllSound(rows, decrypt);
    forall x
      ensures x in rows <==> x in st.rows && x.userId == userId
    {
      assert x in rows <==> x in multiset(rows);
      assert x in UserRows(st.rows, userId) <==> x in multiset(UserRows(st.rows, userId));
    }
    DecryptAll(rows, decrypt)
  }

  /** Decrypting works row by row. */
  lemma {:induction false} DecryptAllAppend(a: seq<PdfPassword>, b: seq<PdfPassword>, decrypt: string -> Result<string>)
    ensures DecryptAll(a + b, decrypt) == DecryptAll(a, decrypt) + DecryptAll(b, decrypt)
    decreases |a|
  {
    if |a| == 0 {
      assert a + b == b;
    } else {
      assert (a + b)[1..] == a[1..] + b;
      DecryptAllAppend(a[1..], b, decrypt);
    }
  }

  /** Rows that all decrypt give all their plaintexts, in row order. */
  lemma {:induction false} DecryptAllComplete(rows: seq<PdfPassword>, decrypt: string -> Result<string>)
    requires forall k :: 0 <= k < |rows| ==> rows[k].encrypted != "" && decrypt(rows[k].encrypted).Ok?
    ensures |DecryptAll(rows, decrypt)| == |rows|
    ensures forall k :: 0 <= k < |rows| ==> DecryptAll(rows, decrypt)[k] == decrypt(rows[k].encrypted).value
    decreases |rows|
  {
    if |rows| > 0 {
      DecryptAllComplete(rows[1..], decrypt);
      var r := DecryptAll(rows, decrypt);
      assert r == [decrypt(rows[0].encrypted).value] + DecryptAll(rows[1..], decrypt);
      forall k | 1 <= k < |rows|
        ensures r[k] == decrypt(rows[k].encrypted).value
      {
        assert rows[k] == rows[1..][k - 1];
      }
    }
  }

  /** Two decryptable rows give their plaintexts in row order. */
  lemma DecryptAllOrder(rows: seq<PdfPassword>, decrypt: string -> Result<string>, i: nat, j: nat)
    requires i < j < |rows|
    requires rows[i].encrypted != "" && decrypt(rows[i].encrypted).Ok?
    requires rows[j].encrypted != "" && decrypt(rows[j].encrypted).Ok?
    ensures var r := DecryptAll(rows, decrypt);
      exists a, b :: 0 <= a < b < |r| && r[a] == decrypt(rows[i].encrypted).value && r[b] == decrypt(rows[j].encrypted).value
  {
    var p0, p1, p2 := rows[..i], rows[i + 1..j], rows[j + 1..];
    assert rows == p0 + [rows[i]] + p1 + [rows[j]] + p2;
    DecryptAllAppend(p0 + [rows[i]] + p1 + [rows[j]], p2, decrypt);
    DecryptAllAppend(p0 + [rows[i]] + p1, [rows[j]], decrypt);
    DecryptAllAppend(p0 + [rows[i]], p1, decrypt);
    DecryptAllAppend(p0, [rows[i]], decrypt);
    var d0 := DecryptAll(p0, decrypt);
    var d1 := DecryptAll(p1, decrypt);
    assert DecryptAll([rows[i]], decrypt) == [decrypt(rows[i].encrypted).value];
    assert DecryptAll([rows[j]], decrypt) == [decrypt(rows[j].encrypted).value];
    var r := DecryptAll(rows, decrypt);
    assert r[|d0|] == decrypt(rows[i].encrypted).value;
    assert r[|d0| + 1 + |d1|] == decrypt(rows[j].encrypted).value;
  }

  /** A user's password of lower priority is offered before one of higher
      priority. */
  lemma DecryptedInPriorityOrder(st: Store, decrypt: string -> Result<string>, userId: nat, x: PdfPassword, y: PdfPassword)
    requires x in st.rows && y in st.rows && x.userId == userId && y.userId == userId
    requires x.priority < y.priority
    requires x.encrypted != "" && decrypt(x.encrypted).Ok? && y.encrypted != "" && decrypt(y.encrypted).Ok?
    ensures var r := GetDecryptedPasswords(st, decrypt, userId);
      exists a, b :: 0 <= a < b < |r| && r[a] == decrypt(x.encrypted).value && r[b] == decrypt(y.encrypted).value
  {
    var rows := ByPriority(st, userId);
    var pool := UserRows(st.rows, userId);
    assert x in pool && y in pool;
    var i, j := SortedPositions(rows, pool, x, y);
    DecryptAllOrder(rows, decrypt, i, j);
    assert GetDecryptedPasswords(st, decrypt, userId) == DecryptAll(rows, decrypt);
  }

  /** In a priority-ordered permutation of `pool`, a row of lower priority
      stands before one of higher priority. */
  lemma SortedPositions(rows: seq<PdfPassword>, pool: seq<PdfPassword>, x: PdfPassword, y: PdfPassword) returns (i: nat, j: nat)
    requires SortedBy(rows, Priority) && multiset(rows) == multiset(pool)
    requires x in pool && y in pool && x.priority < y.priority
    ensures i < j < |rows| && rows[i] == x && rows[j] == y
  {
    assert x in multiset(rows) && y in multiset(rows);
    i :| 0 <= i < |rows| && rows[i] == x;
    j :| 0 <= j < |rows| && rows[j] == y;
  }

  // ---------------------------------------------------------------------
  // Deleting

  /** The rows outside a slot, in table order. */
  function RemoveSlot(rows: seq<PdfPassword>, userId: nat, priority: int): (r: seq<PdfPassword>)
    ensures |r| <= |rows|
    ensures forall k :: 0 <= k < |r| ==> !InSlot(r[k], userId, priority)
    ensures forall x :: x in rows && !InSlot(x, userId, priority) <==> x in r
    ensures |r| == |rows| <==> FindSlot(rows, userId, priority).None?
  {
    if |rows| == 0 then []
    else
      var rest := RemoveSlot(rows[1..], userId, priority);
      assert rows == [rows[0]] + rows[1..];
      FindSlotCons(rows[0], rows[1..], userId, priority);
      if InSlot(rows[0], userId, priority) then rest else [rows[0]] + rest
  }

  /** `DeletePassword`: remove the slot's rows; "password not found" when
      there are none, and then nothing changes. */
  function DeletePassword(st: Store, userId: nat, priority: int): (r: Outcome)
    ensures r.error.Some? <==> Entry(st, userId, priority).None?
    ensures r.error.Some? ==> r == Outcome(st, Some(PasswordNotFound))
    ensures Entry(r.store, userId, priority).None?
    ensures r.store.nextId == st.nextId
  {
    var kept := RemoveSlot(st.rows, userId, priority);
    if |kept| == |st.rows| then Outcome(st, Some(PasswordNotFound))
    else Outcome(st.(rows := kept), None)
  }

  /** Looking a slot up in `r` finds the row it finds in `rows`. */
  ghost predicate SlotLookupKept(rows: seq<PdfPassword>, r: seq<PdfPassword>, u: nat, p: int) {
    var f := FindSlot(r, u, p);
    var g := FindSlot(rows, u, p);
    f.Some? == g.Some? && (f.Some? ==> r[f.value] == rows[g.value])
  }

  lemma {:induction false} RemoveSlotKeeps(rows: seq<PdfPassword>, userId: nat, priority: int, u: nat, p: int)
    requires u != userId || p != priority
    ensures SlotLookupKept(rows, RemoveSlot(rows, userId, priority), u, p)
    decreases |rows|
  {
    if |rows| > 0 {
      var x, tail := rows[0], rows[1..];
      RemoveSlotKeeps(tail, userId, priority, u, p);
      assert rows == [x] + tail;
      RemoveSlotCons(x, tail, userId, priority);
      if InSlot(x, userId, priority) {
        DroppedHeadKeeps(x, tail, RemoveSlot(tail, userId, priority), u, p);
      } else {
        KeptHeadKeeps(x, tail, RemoveSlot(tail, userId, priority), u, p);
      }
    }
  }

  lemma RemoveSlotCons(x: PdfPassword, tail: seq<PdfPassword>, userId: nat, priority: int)
    ensures RemoveSlot([x] + tail, userId, priority) ==
      if InSlot(x, userId, priority) then RemoveSlot(tail, userId, priority)
      else [x] + RemoveSlot(tail, userId, priority)
  {
    assert ([x] + tail)[1..] == tail;
  }

  /** Dropping a head row outside the slot keeps the lookup. */
  lemma DroppedHeadKeeps(x: PdfPassword, tail: seq<PdfPassword>, rest: seq<PdfPassword>, u: nat, p: int)
    requires !InSlot(x, u, p) && SlotLookupKept(tail, rest, u, p)
    ensures SlotLookupKept([x] + tail, rest, u, p)
  {
    FindSlotCons(x, tail, u, p);
    var g := FindSlot(tail, u, p);
    if g.Some? {
      assert ([x] + tail)[g.value + 1] == tail[g.value];
    }
  }

  /** Keeping the same head row on both sides keeps the lookup. */
  lemma KeptHeadKeeps(x: PdfPassword, tail: seq<PdfPassword>, rest: seq<PdfPassword>, u: nat, p: int)
    requires SlotLookupKept(tail, rest, u, p)
    ensures SlotLookupKept([x] + tail, [x] + rest, u, p)
  {
    FindSlotCons(x, tail, u, p);
    FindSlotCons(x, rest, u, p);
    var f, g := FindSlot(rest, u, p), FindSlot(tail, u, p);
    if !InSlot(x, u, p) && f.Some? {
      assert ([x] + rest)[f.value + 1] == rest[f.value];
      assert ([x] + tail)[g.value + 1] == tail[g.value];
    }
  }

  /** The slot's first row in a table with one more row in front. */
  lemma FindSlotCons(x: PdfPassword, rest: seq<PdfPassword>, u: nat, p: int)
    ensures FindSlot([x] + rest, u, p) ==
      if InSlot(x, u, p) then Some(0)
      else match FindSlot(rest, u, p) case None => None case Some(k) => Some(k + 1)
  {
    assert ([x] + rest)[1..] == rest;
  }

  /** Deleting one slot leaves every other slot as it was. */
  lemma DeleteKeepsOthers(st: Store, userId: nat, priority: int, u: nat, p: int)
    requires u != userId || p != priority
    ensures Entry(DeletePassword(st, userId, priority).store, u, p) == Entry(st, u, p)
  {
    RemoveSlotKeeps(st.rows, userId, priority, u, p);
  }

  lemma {:induction false} RemoveSlotValid(rows: seq<PdfPassword>, nextId: nat, userId: nat, priority: int)
    requires Valid(Store(rows, nextId))
    ensures Valid(Store(RemoveSlot(rows, userId, priority), nextId))
    decreases |rows|
  {
    if |rows| > 0 {
      var tail := rows[1..];
      assert forall i :: 0 <= i < |tail| ==> tail[i] == rows[i + 1];
      RemoveSlotValid(tail, nextId, userId, priority);
      if !InSlot(rows[0], userId, priority) {
        var rest := RemoveSlot(tail, userId, priority);
        forall y | y in rest
          ensures rows[0].id < y.id && !InSlot(y, rows[0].userId, rows[0].priority)
        {
          var m :| 0 <= m < |tail| && tail[m] == y;
        }
        PrependValid(rows[0], rest, nextId);
      }
    }
  }

  lemma PrependValid(x: PdfPassword, rest: seq<PdfPassword>, nextId: nat)
    requires Valid(Store(rest, nextId)) && x.id < nextId
    requires forall y :: y in rest ==> x.id < y.id && !InSlot(y, x.userId, x.priority)
    ensures Valid(Store([x] + rest, nextId))
  {
    var r := [x] + rest;
    assert forall j :: 1 <= j < |r| ==> r[j] == rest[j - 1];
  }

  /** Deleting keeps the table well-formed. */
  lemma DeleteValid(st: Store, userId: nat, priority: int)
    requires Valid(st)
    ensures Valid(DeletePassword(st, userId, priority).store)
  {
    RemoveSlotValid(st.rows, st.nextId, userId, priority);
  }

  // ---------------------------------------------------------------------
  // Several at once

  function InputPriority(input: PasswordInput): int {
    input.priority
  }

  /** The inputs in order: empty passwords skipped, each other one set, and
      the first failure returned with the writes before it kept. */
  function ApplyInputs(st: Store, encrypt: string -> Result<string>, userId: nat, inputs: seq<PasswordInput>): (r: Outcome)
    ensures r.error.Some? ==> exists k :: 0 <= k < |inputs| && inputs[k].password != "" && encrypt(inputs[k].password) == Err(r.error.value)
    ensures (forall k :: 0 <= k < |inputs| && inputs[k].password != "" ==> encrypt(inputs[k].password).Ok?) ==> r.error.None?
    decreases |inputs|
  {
    if |inputs| == 0 then Outcome(st, None)
    else
      assert forall k :: 1 <= k < |inputs| ==> inputs[k] == inputs[1..][k - 1];
      if inputs[0].password == "" then ApplyInputs(st, encrypt, userId, inputs[1..])
      else
        var o := SetPassword(st, encrypt, userId, inputs[0]);
        if o.error.Some? then o else ApplyInputs(o.store, encrypt, userId, inputs[1..])
  }

  /** `SetMultiplePasswords`: the inputs by ascending priority, then applied
      in that order. */
  function SetMultiplePasswords(st: Store, encrypt: string -> Result<string>, userId: nat, inputs: seq<PasswordInput>): (r: Outcome)
    ensures exists sorted :: SortedBy(sorted, InputPriority) && multiset(sorted) == multiset(inputs)
                          && r == ApplyInputs(st, encrypt, userId, sorted)
  {
    var sorted := SortBy(inputs, InputPriority);
    SortBySorted(inputs, InputPriority);
    SortByElements(inputs, InputPriority);
    ApplyInputs(st, encrypt, userId, sorted)
  }

  /** Applying a list is applying its parts in turn, unless the first part
      fails: then the second is never attempted. */
  lemma {:induction false} ApplyInputsAppend(st: Store, encrypt: string -> Result<string>, userId: nat,
                                             a: seq<PasswordInput>, b: seq<PasswordInput>)
    ensures var first := ApplyInputs(st, encrypt, userId, a);
      ApplyInputs(st, encrypt, userId, a + b) ==
        if first.error.Some? then first else ApplyInputs(first.store, encrypt, userId, b)
    decreases |a|
  {
    if |a| == 0 {
      assert a + b == b;
    } else {
      assert (a + b)[0] == a[0];
      assert (a + b)[1..] == a[1..] + b;
      if a[0].password == "" {
        ApplyInputsAppend(st, encrypt, userId, a[1..], b);
      } else {
        var o := SetPassword(st, encrypt, userId, a[0]);
        if o.error.None? {
          ApplyInputsAppend(o.store, encrypt, userId, a[1..], b);
        }
      }
    }
  }

  /** Inputs of other priorities, or with empty passwords, leave a slot as
      it is. */
  lemma {:induction false} ApplyInputsKeepsSlot(st: Store, encrypt: string -> Result<string>, userId: nat,
                                                inputs: seq<PasswordInput>, p: int)
    requires forall k :: 0 <= k < |inputs| && inputs[k].password != "" ==> inputs[k].priority != p
    ensures Entry(ApplyInputs(st, encrypt, userId, inputs).store, userId, p) == Entry(st, userId, p)
    decreases |inputs|
  {
    if |inputs| > 0 {
      assert forall k :: 1 <= k < |inputs| ==> inputs[k] == inputs[1..][k - 1];
      if inputs[0].password == "" {
        ApplyInputsKeepsSlot(st, encrypt, userId, inputs[1..], p);
      } else {
        var o := SetPassword(st, encrypt, userId, inputs[0]);
        SetPasswordKeepsOthers(st, encrypt, userId, inputs[0], userId, p);
        if o.error.None? {
          ApplyInputsKeepsSlot(o.store, encrypt, userId, inputs[1..], p);
        }
      }
    }
  }

  /** When every encryption succeeds, each slot ends up with the last
      non-empty input of its priority. */
  lemma ApplyInputsLastWins(st: Store, encrypt: string -> Result<string>, userId: nat, inputs: seq<PasswordInput>, k: nat)
    requires forall j :: 0 <= j < |inputs| && inputs[j].password != "" ==> encrypt(inputs[j].password).Ok?
    requires k < |inputs| && inputs[k].password != ""
    requires forall j :: k < j < |inputs| && inputs[j].password != "" ==> inputs[j].priority != inputs[k].priority
    ensures var e := Entry(ApplyInputs(st, encrypt, userId, inputs).store, userId, inputs[k].priority);
      && e.Some?
      && e.value.encrypted == encrypt(inputs[k].password).value
      && e.value.labelText == inputs[k].labelText
  {
    var before, x, after := inputs[..k], inputs[k], inputs[k + 1..];
    assert inputs == before + [x] + after;
    ApplyInputsAppend(st, encrypt, userId, before + [x], after);
    ApplyInputsAppend(st, encrypt, userId, before, [x]);
    var s0 := ApplyInputs(st, encrypt, userId, before);
    assert s0.error.None?;
    var s1 := ApplyInputs(s0.store, encrypt, userId, [x]);
    assert [x][1..] == [];
    assert s1 == SetPassword(s0.store, encrypt, userId, x);
    SetPasswordWrites(s0.store, encrypt, userId, x);
    assert forall j :: 0 <= j < |after| && after[j].password != "" ==> after[j] == inputs[k + 1 + j];
    ApplyInputsKeepsSlot(s1.store, encrypt, userId, after, x.priority);
  }

  /** The table stays well-formed through any sequence of inputs. */
  lemma {:induction false} ApplyInputsValid(st: Store, encrypt: string -> Result<string>, userId: nat, inputs: seq<PasswordInput>)
    requires Valid(st)
    ensures Valid(ApplyInputs(st, encrypt, userId, inputs).store)
    decreases |inputs|
  {
    if |inputs| > 0 {
      if inputs[0].password == "" {
        ApplyInputsValid(st, encrypt, userId, inputs[1..]);
      } else {
        SetPasswordValid(st, encrypt, userId, inputs[0]);
        var o := SetPassword(st, encrypt, userId, inputs[0]);
        if o.error.None? {
          ApplyInputsValid(o.store, encrypt, userId, inputs[1..]);
        }
      }
    }
  }
}

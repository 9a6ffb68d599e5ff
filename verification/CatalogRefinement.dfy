/** The composite-key catalog against a plain map over (subsystem, shell, key), and
    the order in which a subsystem is listed. */
module CatalogRefinement {
  import opened Text
  import KeyOrder
  import opened Catalog

  datatype Slot = Slot(subsystem: string, shell: string, key: string)

  type Plain = map<Slot, Row>

  predicate SepFree(s: string) {
    SEP !in s
  }

  function SlotFor(subsystem: string, key: string, shellId: Option<string>): Slot {
    Slot(subsystem, ShellOf(shellId), key)
  }

  // ----- packing and unpacking the storage key -----

  function FirstSep(s: string): (n: nat)
    ensures n <= |s| && SepFree(s[..n]) && (n < |s| ==> s[n] == SEP)
  {
    if s == [] || s[0] == SEP then 0
    else
      var n := FirstSep(s[1..]);
      assert s[..n + 1] == [s[0]] + s[1..][..n];
      n + 1
  }

  lemma FirstSepUnique(s: string, n: nat)
    requires n <= |s| && SepFree(s[..n]) && (n < |s| ==> s[n] == SEP)
    ensures FirstSep(s) == n
  {
    var m := FirstSep(s);
    assert forall i :: 0 <= i < n ==> s[i] in s[..n];
    assert forall i :: 0 <= i < m ==> s[i] in s[..m];
  }

  /** The slot a storage key belongs to. */
  function Unpack(subsystem: string, storageKey: string): Slot {
    var n := FirstSep(storageKey);
    if n == |storageKey| then Slot(subsystem, DEFAULT_SHELL, storageKey)
    else Slot(subsystem, storageKey[n + 1..], storageKey[..n])
  }

  lemma PackUnpack(subsystem: string, key: string, shellId: Option<string>)
    requires SepFree(key)
    ensures Unpack(subsystem, CompositeKey(key, shellId)) == SlotFor(subsystem, key, shellId)
  {
    var ck := CompositeKey(key, shellId);
    assert ck[..|key|] == key;
    FirstSepUnique(ck, |key|);
  }

  /** Replacing the rows of `shell` also clears those of `other`, whose id ends in a
      separator and `shell`. */
  predicate Shadows(shell: string, other: string) {
    shell != DEFAULT_SHELL && other != DEFAULT_SHELL && EndsWith(other, [SEP] + shell)
  }

  lemma SuffixHasSep(s: string, shell: string)
    ensures EndsWith(s, [SEP] + shell) ==> |s| > |shell| && s[|s| - |shell| - 1] == SEP && SEP in s
  {
    var n := |s| - |shell| - 1;
    assert n >= 0 ==> s[n..][0] == s[n];
  }

  lemma SuffixOfPacked(key: string, other: string, shell: string)
    requires SepFree(key)
    ensures EndsWith(key + [SEP] + other, [SEP] + shell) <==> other == shell || EndsWith(other, [SEP] + shell)
  {
    hide EndsWith;
    var suffix := [SEP] + shell;
    if |suffix| <= |other| {
      SuffixWithin(key + [SEP], other, suffix);
      DifferByLength(other, shell);
    } else if |shell| == |other| {
      assert key + [SEP] + other == key + ([SEP] + other);
      SuffixWithin(key, [SEP] + other, suffix);
      SuffixOfSameLength([SEP] + other, suffix);
      SuffixTooLong(other, suffix);
      assert ([SEP] + other)[1..] == other && suffix[1..] == shell;
    } else {
      SuffixTooLong(other, suffix);
      SuffixInKey(key, other, shell);
      DifferByLength(other, shell);
    }
  }

  lemma DifferByLength(a: string, b: string)
    ensures |a| != |b| ==> a != b
  {
  }

  lemma SuffixWithin(front: string, s: string, suffix: string)
    requires |suffix| <= |s|
    ensures EndsWith(front + s, suffix) <==> EndsWith(s, suffix)
  {
    var all := front + s;
    assert all[|all| - |suffix|..] == s[|s| - |suffix|..];
  }

  lemma SuffixOfSameLength(s: string, suffix: string)
    requires |suffix| == |s|
    ensures EndsWith(s, suffix) <==> s == suffix
  {
    assert s[0..] == s;
  }

  lemma SuffixTooLong(s: string, suffix: string)
    requires |suffix| > |s|
    ensures !EndsWith(s, suffix)
  {
  }

  lemma SuffixInKey(key: string, other: string, shell: string)
    requires SepFree(key) && |shell| > |other|
    ensures !EndsWith(key + [SEP] + other, [SEP] + shell)
  {
    var ck := key + [SEP] + other;
    SuffixHasSep(ck, shell);
    var n := |ck| - |shell| - 1;
    assert 0 <= n ==> ck[n] == key[n];
  }

  /** For a separator-free key a scope-clear drops exactly the shell's own row, unless
      the row's shell is one that the cleared shell shadows. */
  lemma ScopeIsTheShell(key: string, rowShell: Option<string>, shellId: Option<string>)
    requires SepFree(key)
    ensures (OutOfScope(CompositeKey(key, rowShell), shellId) <==> ShellOf(rowShell) != ShellOf(shellId))
      <==> !Shadows(ShellOf(shellId), ShellOf(rowShell))
  {
    var ck := CompositeKey(key, rowShell);
    if ShellOf(rowShell) != DEFAULT_SHELL {
      assert ck[|key|] == SEP;
      if ShellOf(shellId) != DEFAULT_SHELL { SuffixOfPacked(key, rowShell.value, shellId.value); }
    } else {
      SuffixHasSep(ck, ShellOf(shellId));
    }
  }

  /** Between shell ids without separators it always does exactly when the key has
      none either. */
  lemma ScopeClearIsRightExactlyForSepFreeKeys(key: string)
    ensures (forall rowShell, shellId :: SepFree(ShellOf(rowShell)) && SepFree(ShellOf(shellId)) ==>
              (OutOfScope(CompositeKey(key, rowShell), shellId) <==> ShellOf(rowShell) != ShellOf(shellId)))
      <==> SepFree(key)
  {
    if SepFree(key) {
      forall rowShell, shellId | SepFree(ShellOf(rowShell)) && SepFree(ShellOf(shellId))
        ensures OutOfScope(CompositeKey(key, rowShell), shellId) <==> ShellOf(rowShell) != ShellOf(shellId)
      {
        ScopeIsTheShell(key, rowShell, shellId);
        SuffixHasSep(ShellOf(rowShell), ShellOf(shellId));
      }
    } else {
      assert OutOfScope(CompositeKey(key, None), None);
      assert SepFree(ShellOf(None)) by { assert DEFAULT_SHELL == ['z', 's', 'h', 'r', 's']; }
    }
  }

  /** Two rows of different shells share a storage key. */
  predicate Collide(key: string, shellId: Option<string>, other: string, shellId': Option<string>) {
    ShellOf(shellId) != ShellOf(shellId') && CompositeKey(key, shellId) == CompositeKey(other, shellId')
  }

  lemma SepFreeKeysDoNotCollide(key: string, shellId: Option<string>, other: string, shellId': Option<string>)
    requires SepFree(key) && SepFree(other)
    ensures !Collide(key, shellId, other, shellId')
  {
    PackUnpack("", key, shellId);
    PackUnpack("", other, shellId');
  }

  lemma SeparatorCollides(key: string) returns (shellId: Option<string>, other: string, shellId': Option<string>)
    requires SEP in key
    ensures SepFree(other) && Collide(key, shellId, other, shellId')
  {
    var n := FirstSep(key);
    assert key[..|key|] == key;
    var longer := key[n + 1..] + [SEP] + "b";
    assert longer[|key| - n - 1] == SEP;
    assert DEFAULT_SHELL == ['z', 's', 'h', 'r', 's'] && |"b"| == 1;
    shellId, other, shellId' := Some("b"), key[..n], Some(longer);
    assert key + [SEP] + "b" == other + [SEP] + longer;
  }

  /** The documentation promises that rows of different shells never overwrite each
      other. A row can lose its slot to another shell's row with a separator-free key
      exactly when its own key holds a separator, whichever the shells are. */
  lemma OverwrittenExactlyWhenKeyHoldsSeparator(key: string)
    ensures (exists shellId, other, shellId' :: SepFree(other) && Collide(key, shellId, other, shellId')) <==> SEP in key
  {
    if SepFree(key) {
      forall shellId, other, shellId' | SepFree(other)
        ensures !Collide(key, shellId, other, shellId')
      {
        SepFreeKeysDoNotCollide(key, shellId, other, shellId');
      }
    } else {
      var shellId, other, shellId' := SeparatorCollides(key);
    }
  }

  /** A row of zshrs's own can lose its slot to another shell's row exactly when its
      key holds a separator followed by something other than the default shell's
      name. */
  lemma OwnRowOverwrittenExactlyWhen(key: string)
    ensures (exists other, sid :: sid != DEFAULT_SHELL && CompositeKey(other, Some(sid)) == CompositeKey(key, None))
      <==> exists n :: 0 <= n < |key| && key[n] == SEP && key[n + 1..] != DEFAULT_SHELL
  {
    if other, sid :| sid != DEFAULT_SHELL && CompositeKey(other, Some(sid)) == CompositeKey(key, None) {
      assert key[|other|] == SEP && key[|other| + 1..] == sid;
    }
    if n :| 0 <= n < |key| && key[n] == SEP && key[n + 1..] != DEFAULT_SHELL {
      assert CompositeKey(key[..n], Some(key[n + 1..])) == key;
    }
  }

  // ----- refinement -----

  /** One storage location against the plain map: it is occupied exactly when the
      slot it unpacks to is present, and packs back to it. */
  predicate Agrees(rows: Rows, plain: Plain, subsystem: string, ck: string) {
    var m, t := Subsystem(rows, subsystem), Unpack(subsystem, ck);
    && (ck in m <==> t in plain && CompositeKey(t.key, Some(t.shell)) == ck)
    && (ck in m ==> m[ck] == plain[t])
  }

  /** The row names its own slot. */
  predicate OwnRow(t: Slot, row: Row) {
    row.key == t.key && ShellOf(row.shellId) == t.shell
  }

  /** The nested maps hold exactly the rows of `plain`, each under its packed key. */
  ghost predicate Represents(rows: Rows, plain: Plain) {
    && (forall t :: t in plain ==> SepFree(t.key) && OwnRow(t, plain[t]))
    && (forall subsystem, ck :: Agrees(rows, plain, subsystem, ck))
  }

  lemma PackedKey(key: string, shellId: Option<string>)
    ensures CompositeKey(key, Some(ShellOf(shellId))) == CompositeKey(key, shellId)
  {
  }

  lemma StoreAt(rows: Rows, plain: Plain, subsystem: string, key: string, shellId: Option<string>, row: Row,
                s: string, k: string)
    requires Agrees(rows, plain, s, k) && SepFree(key)
    ensures Agrees(rows[subsystem := Subsystem(rows, subsystem)[CompositeKey(key, shellId) := row]],
                   plain[SlotFor(subsystem, key, shellId) := row], s, k)
  {
    PackUnpack(subsystem, key, shellId);
    PackedKey(key, shellId);
  }

  lemma StoreOne(rows: Rows, plain: Plain, subsystem: string, key: string, shellId: Option<string>, row: Row)
    requires Represents(rows, plain) && SepFree(key)
    requires row.key == key && ShellOf(row.shellId) == ShellOf(shellId)
    ensures Represents(rows[subsystem := Subsystem(rows, subsystem)[CompositeKey(key, shellId) := row]],
                       plain[SlotFor(subsystem, key, shellId) := row])
  {
    var rows' := rows[subsystem := Subsystem(rows, subsystem)[CompositeKey(key, shellId) := row]];
    var plain' := plain[SlotFor(subsystem, key, shellId) := row];
    forall s, k
      ensures Agrees(rows', plain', s, k)
    {
      StoreAt(rows, plain, subsystem, key, shellId, row, s, k);
    }
  }

  /** An upsert is one update of the plain map. */
  lemma UpsertRefines(rows: Rows, plain: Plain, subsystem: string, e: Entry, setBy: Option<int>, shellId: Option<string>, now: int)
    requires Represents(rows, plain) && SepFree(e.key)
    ensures Represents(Upserted(rows, subsystem, e, setBy, shellId, now),
                       plain[SlotFor(subsystem, e.key, shellId) := NewRow(e, setBy, shellId, now)])
  {
    StoreOne(rows, plain, subsystem, e.key, shellId, NewRow(e, setBy, shellId, now));
  }

  lemma SetHistoryRefines(rows: Rows, plain: Plain, subsystem: string, key: string, shellId: Option<string>, history: seq<Definition>)
    requires Represents(rows, plain) && SepFree(key)
    ensures var slot := SlotFor(subsystem, key, shellId);
      Represents(WithHistory(rows, subsystem, CompositeKey(key, shellId), history),
                 if slot in plain then plain[slot := plain[slot].(history := history)] else plain)
  {
    var ck, slot := CompositeKey(key, shellId), SlotFor(subsystem, key, shellId);
    PackUnpack(subsystem, key, shellId);
    PackedKey(key, shellId);
    assert Agrees(rows, plain, subsystem, ck);
    if ck in Subsystem(rows, subsystem) {
      StoreOne(rows, plain, subsystem, key, shellId, plain[slot].(history := history));
    }
  }

  /** The plain map after one shell's rows of one subsystem are dropped. */
  function Without(plain: Plain, subsystem: string, shell: string): Plain {
    map t | t in plain && !(t.subsystem == subsystem && t.shell == shell) :: plain[t]
  }

  function InsertAll(plain: Plain, subsystem: string, entries: seq<Entry>, setBy: Option<int>, shellId: Option<string>, now: int)
    : Plain
  {
    if entries == [] then plain
    else
      var k := |entries| - 1;
      InsertAll(plain, subsystem, entries[..k], setBy, shellId, now)
        [SlotFor(subsystem, entries[k].key, shellId) := NewRow(entries[k], setBy, shellId, now)]
  }

  /** No row of the subsystem belongs to a shell that the replaced shell shadows. */
  ghost predicate NoneShadowed(plain: Plain, subsystem: string, shell: string) {
    forall t: Slot :: t in plain && t.subsystem == subsystem ==> !Shadows(shell, t.shell)
  }

  lemma ClearAt(rows: Rows, plain: Plain, subsystem: string, shellId: Option<string>, s: string, k: string)
    requires Agrees(rows, plain, s, k)
    requires Unpack(s, k) in plain ==> SepFree(Unpack(s, k).key)
    ensures var t := Unpack(s, k);
      (s == subsystem && k in Subsystem(rows, s) ==> !Shadows(ShellOf(shellId), t.shell)) <==>
        Agrees(rows[subsystem := Cleared(Subsystem(rows, subsystem), shellId)], Without(plain, subsystem, ShellOf(shellId)), s, k)
  {
    var t := Unpack(s, k);
    if k in Subsystem(rows, s) {
      ScopeIsTheShell(t.key, Some(t.shell), shellId);
    }
  }

  lemma ClearRefines(rows: Rows, plain: Plain, subsystem: string, shellId: Option<string>)
    requires Represents(rows, plain) && NoneShadowed(plain, subsystem, ShellOf(shellId))
    ensures Represents(rows[subsystem := Cleared(Subsystem(rows, subsystem), shellId)],
                       Without(plain, subsystem, ShellOf(shellId)))
  {
    var rows' := rows[subsystem := Cleared(Subsystem(rows, subsystem), shellId)];
    var plain' := Without(plain, subsystem, ShellOf(shellId));
    forall s, k
      ensures Agrees(rows', plain', s, k)
    {
      assert Agrees(rows, plain, s, k);
      ClearAt(rows, plain, subsystem, shellId, s, k);
    }
  }

  lemma {:induction false} InsertRefines(rows: Rows, plain: Plain, subsystem: string, m: map<string, Row>, entries: seq<Entry>,
                                         setBy: Option<int>, shellId: Option<string>, now: int)
    requires Represents(rows[subsystem := m], plain)
    requires forall e :: e in entries ==> SepFree(e.key)
    ensures Represents(rows[subsystem := InsertEntries(m, entries, setBy, shellId, now)],
                       InsertAll(plain, subsystem, entries, setBy, shellId, now))
  {
    if entries != [] {
      var k := |entries| - 1;
      var init, e := entries[..k], entries[k];
      InsertRefines(rows, plain, subsystem, m, init, setBy, shellId, now);
      var m1 := InsertEntries(m, init, setBy, shellId, now);
      var m2 := InsertEntries(m, entries, setBy, shellId, now);
      assert m2 == m1[CompositeKey(e.key, shellId) := NewRow(e, setBy, shellId, now)];
      StoreOne(rows[subsystem := m1], InsertAll(plain, subsystem, init, setBy, shellId, now), subsystem,
               e.key, shellId, NewRow(e, setBy, shellId, now));
      Overwrite(rows, subsystem, m1, m2);
    }
  }

  lemma Overwrite(rows: Rows, subsystem: string, m1: map<string, Row>, m2: map<string, Row>)
    ensures rows[subsystem := m1][subsystem := m2] == rows[subsystem := m2]
  {
  }

  /** Replacing one shell's subsystem is dropping its rows and inserting the new
      ones; no row of another shell or subsystem changes. */
  lemma ReplaceRefines(rows: Rows, plain: Plain, subsystem: string, entries: seq<Entry>, setBy: Option<int>,
                       shellId: Option<string>, now: int)
    requires Represents(rows, plain) && NoneShadowed(plain, subsystem, ShellOf(shellId))
    requires forall e :: e in entries ==> SepFree(e.key)
    ensures var plain' := InsertAll(Without(plain, subsystem, ShellOf(shellId)), subsystem, entries, setBy, shellId, now);
      && Represents(Replaced(rows, subsystem, entries, setBy, shellId, now), plain')
      && (forall t: Slot :: t.subsystem != subsystem || t.shell != ShellOf(shellId) ==>
            (t in plain' <==> t in plain) && (t in plain ==> plain'[t] == plain[t]))
      && (forall t: Slot :: t.subsystem == subsystem && t.shell == ShellOf(shellId) ==>
            (t in plain' <==> Inserts(subsystem, entries, shellId, t)))
  {
    ClearRefines(rows, plain, subsystem, shellId);
    InsertRefines(rows, Without(plain, subsystem, ShellOf(shellId)), subsystem,
                  Cleared(Subsystem(rows, subsystem), shellId), entries, setBy, shellId, now);
    InsertAllSlots(Without(plain, subsystem, ShellOf(shellId)), subsystem, entries, setBy, shellId, now);
  }

  lemma {:induction false} InsertEntriesKeys(m: map<string, Row>, entries: seq<Entry>, setBy: Option<int>, shellId: Option<string>,
                                             now: int, ck: string)
    ensures ck in InsertEntries(m, entries, setBy, shellId, now)
      <==> ck in m || exists e :: e in entries && CompositeKey(e.key, shellId) == ck
  {
    if entries != [] {
      var k := |entries| - 1;
      InsertEntriesKeys(m, entries[..k], setBy, shellId, now, ck);
      assert forall e :: e in entries <==> e in entries[..k] || e == entries[k];
    }
  }

  /** A shadowed shell's row is lost. */
  lemma ShadowedRowIsLost(rows: Rows, plain: Plain, subsystem: string, entries: seq<Entry>, setBy: Option<int>,
                          shellId: Option<string>, now: int, t: Slot)
    requires Represents(rows, plain) && t in plain && t.subsystem == subsystem && Shadows(ShellOf(shellId), t.shell)
    requires forall e :: e in entries ==> SepFree(e.key)
    ensures var plain' := InsertAll(Without(plain, subsystem, ShellOf(shellId)), subsystem, entries, setBy, shellId, now);
      !Represents(Replaced(rows, subsystem, entries, setBy, shellId, now), plain')
  {
    var ck := CompositeKey(t.key, Some(t.shell));
    PackUnpack(subsystem, t.key, Some(t.shell));
    ScopeIsTheShell(t.key, Some(t.shell), shellId);
    InsertAllSlots(Without(plain, subsystem, ShellOf(shellId)), subsystem, entries, setBy, shellId, now);
    InsertEntriesKeys(Cleared(Subsystem(rows, subsystem), shellId), entries, setBy, shellId, now, ck);
    forall e | e in entries
      ensures CompositeKey(e.key, shellId) != ck
    {
      PackUnpack(subsystem, e.key, shellId);
    }
    var plain' := InsertAll(Without(plain, subsystem, ShellOf(shellId)), subsystem, entries, setBy, shellId, now);
    assert t in plain';
    assert !Agrees(Replaced(rows, subsystem, entries, setBy, shellId, now), plain', subsystem, ck);
  }

  /** With separator-free keys, replacing a shell's subsystem acts as on the plain map
      exactly when no row of the subsystem belongs to a shell it shadows. */
  lemma ReplaceRefinesExactlyWhen(rows: Rows, plain: Plain, subsystem: string, entries: seq<Entry>, setBy: Option<int>,
                                  shellId: Option<string>, now: int)
    requires Represents(rows, plain) && forall e :: e in entries ==> SepFree(e.key)
    ensures var plain' := InsertAll(Without(plain, subsystem, ShellOf(shellId)), subsystem, entries, setBy, shellId, now);
      Represents(Replaced(rows, subsystem, entries, setBy, shellId, now), plain') <==> NoneShadowed(plain, subsystem, ShellOf(shellId))
  {
    if NoneShadowed(plain, subsystem, ShellOf(shellId)) {
      ReplaceRefines(rows, plain, subsystem, entries, setBy, shellId, now);
    } else {
      var t: Slot :| t in plain && t.subsystem == subsystem && Shadows(ShellOf(shellId), t.shell);
      ShadowedRowIsLost(rows, plain, subsystem, entries, setBy, shellId, now, t);
    }
  }

  predicate Inserts(subsystem: string, entries: seq<Entry>, shellId: Option<string>, t: Slot) {
    t.subsystem == subsystem && t.shell == ShellOf(shellId) && exists e :: e in entries && e.key == t.key
  }

  lemma {:induction false} InsertAllSlots(plain: Plain, subsystem: string, entries: seq<Entry>, setBy: Option<int>,
                                          shellId: Option<string>, now: int)
    ensures var plain' := InsertAll(plain, subsystem, entries, setBy, shellId, now);
      && (forall t: Slot :: t in plain' <==> (t in plain || Inserts(subsystem, entries, shellId, t)))
      && (forall t: Slot :: t in plain && !(t.subsystem == subsystem && t.shell == ShellOf(shellId)) ==> plain'[t] == plain[t])
  {
    if entries != [] {
      var k := |entries| - 1;
      InsertAllSlots(plain, subsystem, entries[..k], setBy, shellId, now);
      assert forall e :: e in entries <==> e in entries[..k] || e == entries[k];
    }
  }

  /** `row` reads zshrs's own row. */
  lemma RowReadsDefaultShell(engine: CanonicalEngine, plain: Plain, subsystem: string, key: string)
    requires Represents(engine.rows, plain) && SepFree(key)
    ensures var slot := SlotFor(subsystem, key, None);
      engine.RowOf(subsystem, key) == if slot in plain then Some(plain[slot]) else None
  {
    PackUnpack(subsystem, key, None);
    assert Agrees(engine.rows, plain, subsystem, key);
  }

  // ----- listing -----

  lemma {:induction false} InsertSortedKeepsRows(rows: seq<Row>, r: Row)
    ensures multiset(InsertSorted(rows, r)) == multiset(rows) + multiset{r}
  {
    if rows != [] {
      var k := |rows| - 1;
      assert rows == rows[..k] + [rows[k]];
      InsertSortedKeepsRows(rows[..k], r);
    }
  }

  lemma {:induction false} SortKeepsRows(rows: seq<Row>)
    ensures multiset(SortRows(rows)) == multiset(rows)
  {
    if rows != [] {
      var k := |rows| - 1;
      assert rows == rows[..k] + [rows[k]];
      SortKeepsRows(rows[..k]);
      InsertSortedKeepsRows(SortRows(rows[..k]), rows[k]);
    }
  }

  predicate InOrder(rows: seq<Row>) {
    forall i, j :: 0 <= i < j < |rows| ==> KeyOrder.Compare(rows[i].key, rows[j].key) != Greater
  }

  predicate AllFit(rows: seq<Row>) {
    forall r :: r in rows ==> KeyOrder.Fits(r.key)
  }

  lemma NotAfterTransitive(a: string, b: string, c: string)
    requires KeyOrder.Fits(a) && KeyOrder.Fits(b) && KeyOrder.Fits(c)
    requires KeyOrder.Compare(a, b) != Greater && KeyOrder.Compare(b, c) != Greater
    ensures KeyOrder.Compare(a, c) != Greater
  {
    KeyOrder.CompareFlips(a, b);
    KeyOrder.CompareFlips(b, c);
    if KeyOrder.Compare(a, b) == Less && KeyOrder.Compare(b, c) == Less { KeyOrder.CompareTransitive(a, b, c); }
  }

  predicate NoneAfter(rows: seq<Row>, key: string) {
    forall r :: r in rows ==> KeyOrder.Compare(r.key, key) != Greater
  }

  lemma InOrderSnoc(rows: seq<Row>, r: Row)
    requires InOrder(rows) && NoneAfter(rows, r.key)
    ensures InOrder(rows + [r])
  {
    assert forall i :: 0 <= i < |rows| ==> rows[i] in rows;
  }

  lemma InOrderLast(rows: seq<Row>, key: string)
    requires InOrder(rows) && AllFit(rows) && KeyOrder.Fits(key)
    requires rows != [] ==> KeyOrder.Compare(rows[|rows| - 1].key, key) != Greater
    ensures NoneAfter(rows, key)
  {
    hide KeyOrder.Compare, KeyOrder.Fits;
    forall r | r in rows
      ensures KeyOrder.Compare(r.key, key) != Greater
    {
      var i :| 0 <= i < |rows| && rows[i] == r;
      if i < |rows| - 1 { NotAfterTransitive(r.key, rows[|rows| - 1].key, key); }
    }
  }

  lemma {:induction false} InsertSortedInOrder(rows: seq<Row>, r: Row)
    requires InOrder(rows) && AllFit(rows) && KeyOrder.Fits(r.key)
    ensures InOrder(InsertSorted(rows, r))
  {
    hide KeyOrder.Compare, KeyOrder.Fits;
    if rows != [] && KeyOrder.Compare(rows[|rows| - 1].key, r.key) == Greater {
      var init, last := rows[..|rows| - 1], rows[|rows| - 1];
      InsertSortedInOrder(init, r);
      InsertSortedKeepsRows(init, r);
      KeyOrder.CompareFlips(last.key, r.key);
      var out := InsertSorted(init, r);
      forall x | x in out
        ensures KeyOrder.Compare(x.key, last.key) != Greater
      {
        assert x in multiset(out);
        if x != r {
          var j :| 0 <= j < |init| && init[j] == x;
          assert rows[j] == x;
        }
      }
      InOrderSnoc(out, last);
    } else {
      InOrderLast(rows, r.key);
      InOrderSnoc(rows, r);
    }
  }

  /** A listing is in key order whenever every leading number fits in a `u64`. */
  lemma {:induction false} SortedWhenKeysFit(rows: seq<Row>)
    requires AllFit(rows)
    ensures InOrder(SortRows(rows))
  {
    if rows != [] {
      var k := |rows| - 1;
      SortedWhenKeysFit(rows[..k]);
      SortKeepsRows(rows[..k]);
      var sorted := SortRows(rows[..k]);
      forall r | r in sorted
        ensures KeyOrder.Fits(r.key)
      {
        assert r in multiset(sorted);
        assert r in rows[..k];
      }
      InsertSortedInOrder(sorted, rows[k]);
    }
  }

  lemma VisitedRow(rows: Rows, plain: Plain, subsystem: string, ck: string)
    requires Represents(rows, plain) && ck in Subsystem(rows, subsystem)
    ensures var r := Subsystem(rows, subsystem)[ck];
      && SlotFor(subsystem, r.key, r.shellId) in plain && plain[SlotFor(subsystem, r.key, r.shellId)] == r
      && CompositeKey(r.key, r.shellId) == ck
      && (SEP !in ck <==> ShellOf(r.shellId) == DEFAULT_SHELL)
  {
    assert Agrees(rows, plain, subsystem, ck);
    var t, r := Unpack(subsystem, ck), Subsystem(rows, subsystem)[ck];
    assert OwnRow(t, plain[t]);
    PackedKey(r.key, r.shellId);
    if t.shell != DEFAULT_SHELL { assert ck[|t.key|] == SEP; }
  }

  /** `r` is a row the listing of `subsystem` should hold. */
  predicate Due(plain: Plain, subsystem: string, allShells: bool, r: Row) {
    var t := SlotFor(subsystem, r.key, r.shellId);
    t in plain && plain[t] == r && (allShells || t.shell == DEFAULT_SHELL)
  }

  function VisitedKeys(rows: Rows, subsystem: string, allShells: bool): seq<string> {
    SortedKeys(set k | k in Subsystem(rows, subsystem) && (allShells || SEP !in k))
  }

  lemma VisitedAt(rows: Rows, plain: Plain, subsystem: string, allShells: bool, i: nat)
    requires Represents(rows, plain) && i < |VisitedKeys(rows, subsystem, allShells)|
    ensures var r := Visited(rows, subsystem, allShells)[i];
      Due(plain, subsystem, allShells, r) && CompositeKey(r.key, r.shellId) == VisitedKeys(rows, subsystem, allShells)[i]
  {
    var keys := VisitedKeys(rows, subsystem, allShells);
    assert keys[i] in keys;
    VisitedRow(rows, plain, subsystem, keys[i]);
  }

  lemma VisitedDistinct(rows: Rows, plain: Plain, subsystem: string, allShells: bool)
    requires Represents(rows, plain)
    ensures forall i, j :: 0 <= i < j < |Visited(rows, subsystem, allShells)| ==>
      Visited(rows, subsystem, allShells)[i] != Visited(rows, subsystem, allShells)[j]
  {
    var visited := Visited(rows, subsystem, allShells);
    AscendingDistinct(VisitedKeys(rows, subsystem, allShells));
    forall i, j | 0 <= i < j < |visited|
      ensures visited[i] != visited[j]
    {
      VisitedAt(rows, plain, subsystem, allShells, i);
      VisitedAt(rows, plain, subsystem, allShells, j);
    }
  }

  lemma VisitedHolds(rows: Rows, plain: Plain, subsystem: string, allShells: bool, t: Slot)
    requires Represents(rows, plain)
    requires t in plain && t.subsystem == subsystem && (allShells || t.shell == DEFAULT_SHELL)
    ensures plain[t] in Visited(rows, subsystem, allShells)
  {
    var ck := CompositeKey(t.key, Some(t.shell));
    PackUnpack(subsystem, t.key, Some(t.shell));
    assert Agrees(rows, plain, subsystem, ck);
    VisitedRow(rows, plain, subsystem, ck);
    var keys := VisitedKeys(rows, subsystem, allShells);
    assert ck in keys;
    var i :| 0 <= i < |keys| && keys[i] == ck;
    assert Visited(rows, subsystem, allShells)[i] == plain[t];
  }

  lemma {:induction false} MultisetOfDistinct<T>(s: seq<T>, x: T)
    requires forall i, j :: 0 <= i < j < |s| ==> s[i] != s[j]
    ensures multiset(s)[x] == if x in s then 1 else 0
  {
    if s != [] {
      var k := |s| - 1;
      assert s == s[..k] + [s[k]];
      MultisetOfDistinct(s[..k], x);
    }
  }

  lemma TwiceInMultiset<T>(u: seq<T>, i: nat, j: nat)
    requires i < j < |u|
    ensures u[i] == u[j] ==> multiset(u)[u[i]] >= 2
  {
    var front, back := u[..j], u[j..];
    assert u == front + back;
    assert front[i] in multiset(front) && back[0] in multiset(back);
  }

  lemma SameMultisetDistinct<T>(s: seq<T>, u: seq<T>)
    requires multiset(s) == multiset(u)
    requires forall i, j :: 0 <= i < j < |s| ==> s[i] != s[j]
    ensures forall i, j :: 0 <= i < j < |u| ==> u[i] != u[j]
    ensures forall x :: x in s <==> x in u
  {
    forall x
      ensures x in s <==> x in u
    {
      assert x in multiset(s) <==> x in multiset(u);
    }
    forall i, j | 0 <= i < j < |u|
      ensures u[i] != u[j]
    {
      MultisetOfDistinct(s, u[i]);
      TwiceInMultiset(u, i, j);
    }
  }

  /** A listing holds each row of the subsystem once (zshrs's own rows, or those of
      every shell), and nothing else. */
  lemma ListsEachRowOnce(rows: Rows, plain: Plain, subsystem: string, allShells: bool)
    requires Represents(rows, plain)
    ensures var out := Listing(rows, subsystem, allShells);
      && (forall r :: r in out ==> Due(plain, subsystem, allShells, r))
      && (forall t: Slot :: t in plain && t.subsystem == subsystem && (allShells || t.shell == DEFAULT_SHELL) ==> plain[t] in out)
      && (forall i, j :: 0 <= i < j < |out| ==> out[i] != out[j])
  {
    hide Represents, SortRows, CompositeKey;
    var visited := Visited(rows, subsystem, allShells);
    var out := SortRows(visited);
    SortKeepsRows(visited);
    VisitedDistinct(rows, plain, subsystem, allShells);
    SameMultisetDistinct(visited, out);
    forall r | r in out
      ensures Due(plain, subsystem, allShells, r)
    {
      var i :| 0 <= i < |visited| && visited[i] == r;
      VisitedAt(rows, plain, subsystem, allShells, i);
    }
    forall t: Slot | t in plain && t.subsystem == subsystem && (allShells || t.shell == DEFAULT_SHELL)
      ensures plain[t] in out
    {
      VisitedHolds(rows, plain, subsystem, allShells, t);
    }
  }

  lemma DueByKey(plain: Plain, subsystem: string, a: Row, b: Row)
    requires Due(plain, subsystem, false, a) && Due(plain, subsystem, false, b) && a.key == b.key
    ensures a == b
  {
  }

  ghost predicate KeyedBelow(plain: Plain, subsystem: string, n: nat) {
    forall t: Slot :: t in plain && t.subsystem == subsystem && t.shell == DEFAULT_SHELL ==> KeyOrder.IsNumeralBelow(t.key, n)
  }

  lemma NumeralsFit(key: string, n: nat)
    requires KeyOrder.IsNumeralBelow(key, n) && n <= KeyOrder.U64_MAX + 1
    ensures KeyOrder.Fits(key)
  {
    var k: nat :| k < n && key == ToDec(k);
    DecRoundTrip(k);
    KeyOrder.AllDigitsLead(key);
  }

  lemma ListedKeys(rows: Rows, plain: Plain, subsystem: string, n: nat, out: seq<Row>)
    requires Represents(rows, plain) && KeyedBelow(plain, subsystem, n)
    requires out == Listing(rows, subsystem, false)
    ensures forall i :: 0 <= i < |out| ==> KeyOrder.IsNumeralBelow(out[i].key, n)
    ensures forall i, j :: 0 <= i < j < |out| ==> out[i].key != out[j].key
  {
    ListsEachRowOnce(rows, plain, subsystem, false);
    forall i | 0 <= i < |out|
      ensures KeyOrder.IsNumeralBelow(out[i].key, n)
    {
      assert Due(plain, subsystem, false, out[i]);
    }
    forall i, j | 0 <= i < j < |out|
      ensures out[i].key != out[j].key
    {
      assert Due(plain, subsystem, false, out[i]) && Due(plain, subsystem, false, out[j]);
      if out[i].key == out[j].key { DueByKey(plain, subsystem, out[i], out[j]); }
    }
  }

  lemma ListedInOrder(rows: Rows, plain: Plain, subsystem: string, n: nat, out: seq<Row>)
    requires Represents(rows, plain) && KeyedBelow(plain, subsystem, n) && n <= KeyOrder.U64_MAX + 1
    requires out == Listing(rows, subsystem, false)
    ensures InOrder(out)
  {
    var visited := Visited(rows, subsystem, false);
    forall r | r in visited
      ensures KeyOrder.Fits(r.key)
    {
      var i :| 0 <= i < |visited| && visited[i] == r;
      VisitedAt(rows, plain, subsystem, false, i);
      NumeralsFit(r.key, n);
    }
    SortedWhenKeysFit(visited);
  }

  /** A subsystem whose own rows are keyed 0..n-1 is listed in numeric order. */
  lemma PositionalListing(engine: CanonicalEngine, plain: Plain, subsystem: string, n: nat)
    requires Represents(engine.rows, plain) && n <= KeyOrder.U64_MAX + 1 && KeyedBelow(plain, subsystem, n)
    requires |engine.RowsFor(subsystem)| == n
    ensures forall i :: 0 <= i < n ==> engine.RowsFor(subsystem)[i].key == ToDec(i)
  {
    var out := engine.RowsFor(subsystem);
    ListedKeys(engine.rows, plain, subsystem, n, out);
    ListedInOrder(engine.rows, plain, subsystem, n, out);
    var keys := seq(n, i requires 0 <= i < n => out[i].key);
    assert KeyOrder.Sorted(keys);
    KeyOrder.PositionalRowsComeBackInOrder(keys, n);
  }
}

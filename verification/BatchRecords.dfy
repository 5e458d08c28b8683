/** The rows of a batch mutation: record identity, duplicate rows and correlation keys. */
module BatchRecords {

  import opened Wrappers
  import opened FieldObjects

  datatype Item = Item(recordId: Option<string>, recordTypeId: Option<string>, fields: seq<Field<string>>,
                       reference: Option<string>)

  // ----- record identity

  predicate IsBlank(c: char) {
    var n := c as int;
    9 <= n <= 13 || n == 32 || n == 0xA0 || n == 0x1680 || 0x2000 <= n <= 0x200A
    || n == 0x2028 || n == 0x2029 || n == 0x202F || n == 0x205F || n == 0x3000 || n == 0xFEFF
  }

  function TrimStart(s: string): string {
    if s != "" && IsBlank(s[0]) then TrimStart(s[1..]) else s
  }

  function TrimEnd(s: string): string {
    if s != "" && IsBlank(s[|s| - 1]) then TrimEnd(s[..|s| - 1]) else s
  }

  function Trim(s: string): string {
    TrimEnd(TrimStart(s))
  }

  predicate IsRecordId(s: string) {
    (|s| == 15 || |s| == 18) && forall i :: 0 <= i < |s| ==>
        'A' <= s[i] <= 'Z' || 'a' <= s[i] <= 'z' || '0' <= s[i] <= '9'
  }

  function Prefix15(s: string): string {
    if |s| <= 15 then s else s[..15]
  }

  /** What identifies the record a row names, when the row names one at all. */
  function Identity(item: Item): Option<string> {
    if item.recordId.Some? && IsRecordId(Trim(item.recordId.value)) then Some(Prefix15(Trim(item.recordId.value)))
        else None
  }

  function Identities(items: seq<Item>): seq<Option<string>> {
    seq(|items|, i requires 0 <= i < |items| => Identity(items[i]))
  }

  // ----- duplicate rows

  /** How many of the first `n` rows name the record `x`. */
  function Count<T(==)>(ids: seq<Option<T>>, n: nat, x: T): nat
    requires n <= |ids|
  {
    if n == 0 then 0 else Count(ids, n - 1, x) + if ids[n - 1] == Some(x) then 1 else 0
  }

  predicate IsFirst<T(==)>(ids: seq<Option<T>>, p: nat, x: T)
    requires p < |ids|
  {
    ids[p] == Some(x) && Count(ids, p, x) == 0
  }

  /** Position `p` holds the second occurrence of its identity. */
  predicate IsSecond<T(==)>(ids: seq<Option<T>>, p: nat)
    requires p < |ids|
  {
    ids[p].Some? && Count(ids, p, ids[p].value) == 1
  }

  /** The positions below `n` that hold a second occurrence, in order. */
  function Seconds<T(==)>(ids: seq<Option<T>>, n: nat): (ps: seq<nat>)
    requires n <= |ids|
    ensures forall p: nat :: p in ps <==> p < n && IsSecond(ids, p)
    ensures forall a, b :: 0 <= a < b < |ps| ==> ps[a] < ps[b]
  {
    if n == 0 then []
    else
      var before := Seconds(ids, n - 1);
      assert forall a :: 0 <= a < |before| ==> before[a] in before;
      before + if IsSecond(ids, n - 1) then [n - 1] else []
  }

  function At<T>(ids: seq<Option<T>>, ps: seq<nat>): seq<T>
    requires forall p :: p in ps ==> p < |ids| && ids[p].Some?
  {
    seq(|ps|, a requires 0 <= a < |ps| => assert ps[a] in ps; ids[ps[a]].value)
  }

  /** The identity held by each second occurrence, in the order of those occurrences. */
  function Duplicates<T(==)>(ids: seq<Option<T>>, n: nat): seq<T>
    requires n <= |ids|
  {
    At(ids, Seconds(ids, n))
  }

  lemma DuplicatesStep<T>(ids: seq<Option<T>>, k: nat)
    requires k < |ids|
    ensures Duplicates(ids, k + 1) == Duplicates(ids, k) + if IsSecond(ids, k) then [ids[k].value] else []
  {
  }

  /** An identity is reported exactly when at least two rows name that record. */
  lemma {:induction false} DuplicatesMeaning<T>(ids: seq<Option<T>>, n: nat, x: T)
    requires n <= |ids|
    ensures x in Duplicates(ids, n) <==> Count(ids, n, x) >= 2
  {
    if n > 0 {
      DuplicatesMeaning(ids, n - 1, x);
      DuplicatesStep(ids, n - 1);
    }
  }

  lemma {:induction false} CountGrows<T>(ids: seq<Option<T>>, p: nat, n: nat, x: T)
    requires p < n <= |ids|
    ensures Count(ids, n, x) >= Count(ids, p, x) + if ids[p] == Some(x) then 1 else 0
  {
    if p < n - 1 {
      CountGrows(ids, p, n - 1, x);
    }
  }

  lemma SecondsDiffer<T>(ids: seq<Option<T>>, p: nat, q: nat)
    requires p < q < |ids| && IsSecond(ids, p) && IsSecond(ids, q)
    ensures ids[p] != ids[q]
  {
    CountGrows(ids, p, q, ids[p].value);
  }

  /** Each identity is reported once. */
  lemma DuplicatesDistinct<T>(ids: seq<Option<T>>, a: nat, b: nat)
    requires a < b < |Duplicates(ids, |ids|)|
    ensures Duplicates(ids, |ids|)[a] != Duplicates(ids, |ids|)[b]
  {
    var ps := Seconds(ids, |ids|);
    assert ps[a] in ps && ps[b] in ps;
    SecondsDiffer(ids, ps[a], ps[b]);
  }

  /** What the next row adds: its identity, when it was seen before and is not reported yet. */
  lemma RowAdds<T>(ids: seq<Option<T>>, i: nat, x: T)
    requires i < |ids| && ids[i] == Some(x)
    ensures Seen(ids, i + 1) == Seen(ids, i) + {x}
    ensures Duplicates(ids, i + 1)
         == Duplicates(ids, i) + if x in Seen(ids, i) && x !in Duplicates(ids, i) then [x] else []
  {
    DuplicatesStep(ids, i);
    DuplicatesMeaning(ids, i, x);
    SeenMeaning(ids, i, x);
  }

  lemma RowAddsNothing<T>(ids: seq<Option<T>>, i: nat)
    requires i < |ids| && ids[i].None?
    ensures Seen(ids, i + 1) == Seen(ids, i) && Duplicates(ids, i + 1) == Duplicates(ids, i)
  {
    DuplicatesStep(ids, i);
  }

  function Seen<T(==)>(ids: seq<Option<T>>, n: nat): set<T>
    requires n <= |ids|
  {
    if n == 0 then {} else if ids[n - 1].Some? then Seen(ids, n - 1) + {ids[n - 1].value} else Seen(ids, n - 1)
  }

  lemma {:induction false} SeenMeaning<T>(ids: seq<Option<T>>, n: nat, x: T)
    requires n <= |ids|
    ensures x in Seen(ids, n) <==> Count(ids, n, x) >= 1
  {
    if n > 0 {
      SeenMeaning(ids, n - 1, x);
    }
  }

  /** The report as the loop builds it, row by row. */
  function Reported<T(==)>(ids: seq<Option<T>>, n: nat): seq<T>
    requires n <= |ids|
  {
    if n == 0 then []
    else
      var before := Reported(ids, n - 1);
      if ids[n - 1].Some? && ids[n - 1].value in Seen(ids, n - 1) && ids[n - 1].value !in before then
        before + [ids[n - 1].value]
      else before
  }

  lemma {:induction false} ReportedIsDuplicates<T>(ids: seq<Option<T>>, n: nat)
    requires n <= |ids|
    ensures Reported(ids, n) == Duplicates(ids, n)
  {
    if n > 0 {
      ReportedIsDuplicates(ids, n - 1);
      if ids[n - 1].Some? {
        RowAdds(ids, n - 1, ids[n - 1].value);
      } else {
        RowAddsNothing(ids, n - 1);
      }
    }
  }

  method RepeatedIdentities<T(==)>(ids: seq<Option<T>>) returns (duplicates: seq<T>)
    ensures duplicates == Duplicates(ids, |ids|)
  {
    var seen: set<T> := {};
    duplicates := [];
    var i := 0;
    while i < |ids|
      invariant 0 <= i <= |ids|
      invariant seen == Seen(ids, i) && duplicates == Reported(ids, i)
    {
      if ids[i].Some? {
        var identity := ids[i].value;
        if identity in seen {
          if identity !in duplicates {
            duplicates := duplicates + [identity];
          }
        } else {
          seen := seen + {identity};
        }
      }
      i := i + 1;
    }
    ReportedIsDuplicates(ids, |ids|);
  }

  /** The records named more than once, by the identity of each row. */
  method DuplicateBatchRecordIds(items: seq<Item>) returns (duplicates: seq<string>)
    ensures duplicates == Duplicates(Identities(items), |items|)
  {
    duplicates := RepeatedIdentities(Identities(items));
  }

  // ----- the documented order

  /** The reported identities stand in the order in which they first occur. */
  ghost predicate FirstSeenOrder<T>(ids: seq<Option<T>>) {
    var d := Duplicates(ids, |ids|);
    forall a, b, i, j :: 0 <= a < b < |d| && 0 <= i < |ids| && 0 <= j < |ids| && IsFirst(ids, i, d[a])
        && IsFirst(ids, j, d[b])
      ==> i < j
  }

  /** Rows `i` and `l` first name one record twice, rows `j` and `k` between them another. */
  ghost predicate Encloses<T>(ids: seq<Option<T>>, i: nat, j: nat, k: nat, l: nat) {
    && i < j < k < l < |ids|
    && ids[i].Some? && IsFirst(ids, i, ids[i].value) && ids[l] == ids[i] && IsSecond(ids, l)
    && ids[j].Some? && IsFirst(ids, j, ids[j].value) && ids[k] == ids[j] && IsSecond(ids, k)
  }

  lemma {:induction false} FirstExists<T>(ids: seq<Option<T>>, n: nat, x: T) returns (i: nat)
    requires n <= |ids| && Count(ids, n, x) >= 1
    ensures i < n && IsFirst(ids, i, x)
  {
    if Count(ids, n - 1, x) >= 1 {
      i := FirstExists(ids, n - 1, x);
    } else {
      i := n - 1;
    }
  }

  lemma FirstIsUnique<T>(ids: seq<Option<T>>, i: nat, j: nat, x: T)
    requires i < |ids| && j < |ids| && IsFirst(ids, i, x) && IsFirst(ids, j, x)
    ensures i == j
  {
    if i < j {
      CountGrows(ids, i, j, x);
    } else if j < i {
      CountGrows(ids, j, i, x);
    }
  }

  lemma SecondIsReported<T>(ids: seq<Option<T>>, p: nat) returns (a: nat)
    requires p < |ids| && IsSecond(ids, p)
    ensures a < |Seconds(ids, |ids|)| && Seconds(ids, |ids|)[a] == p && Duplicates(ids, |ids|)[a] == ids[p].value
  {
    assert p in Seconds(ids, |ids|);
    a :| 0 <= a < |Seconds(ids, |ids|)| && Seconds(ids, |ids|)[a] == p;
  }

  lemma EnclosureBreaksOrder<T>(ids: seq<Option<T>>, i: nat, j: nat, k: nat, l: nat)
    requires Encloses(ids, i, j, k, l)
    ensures !FirstSeenOrder(ids)
  {
    var a := SecondIsReported(ids, k);
    var b := SecondIsReported(ids, l);
    var ps := Seconds(ids, |ids|);
    assert ps[a] < ps[b];
    assert IsFirst(ids, j, Duplicates(ids, |ids|)[a]) && IsFirst(ids, i, Duplicates(ids, |ids|)[b]);
  }

  lemma DisorderIsEnclosure<T>(ids: seq<Option<T>>, a: nat, b: nat, i: nat, j: nat)
    requires a < b < |Duplicates(ids, |ids|)| && i < |ids| && j <= i
    requires IsFirst(ids, i, Duplicates(ids, |ids|)[a]) && IsFirst(ids, j, Duplicates(ids, |ids|)[b])
    ensures Encloses(ids, j, i, Seconds(ids, |ids|)[a], Seconds(ids, |ids|)[b])
  {
    var ps := Seconds(ids, |ids|);
    DuplicatesDistinct(ids, a, b);
    assert ps[a] in ps && ps[b] in ps;
    var first := FirstExists(ids, ps[a], Duplicates(ids, |ids|)[a]);
    FirstIsUnique(ids, first, i, Duplicates(ids, |ids|)[a]);
  }

  /** First-seen order, which the comment above the function promises, holds exactly when no
      repetition encloses another. */
  lemma FirstSeenOrderExactly<T>(ids: seq<Option<T>>)
    ensures FirstSeenOrder(ids) <==> forall i, j, k, l :: !Encloses(ids, i, j, k, l)
  {
    if i, j, k, l :| Encloses(ids, i, j, k, l) {
      EnclosureBreaksOrder(ids, i, j, k, l);
    }
    if !FirstSeenOrder(ids) {
      var d := Duplicates(ids, |ids|);
      var a, b, i, j :| 0 <= a < b < |d| && 0 <= i < |ids| && 0 <= j < |ids|
        && IsFirst(ids, i, d[a]) && IsFirst(ids, j, d[b]) && !(i < j);
      DisorderIsEnclosure(ids, a, b, i, j);
    }
  }

  lemma SecondsOfFour<T>(ids: seq<Option<T>>, x: T, y: T)
    requires x != y && |ids| == 4 && ids[0] == ids[3] == Some(x) && ids[1] == ids[2] == Some(y)
    ensures IsFirst(ids, 0, x) && IsFirst(ids, 1, y)
    ensures !IsSecond(ids, 0) && !IsSecond(ids, 1) && IsSecond(ids, 2) && IsSecond(ids, 3)
  {
    assert Count(ids, 1, x) == 1 && Count(ids, 1, y) == 0;
    assert Count(ids, 2, x) == 1 && Count(ids, 2, y) == 1;
  }

  lemma DuplicatesOfFour<T>(ids: seq<Option<T>>, x: T, y: T)
    requires x != y && |ids| == 4 && ids[0] == ids[3] == Some(x) && ids[1] == ids[2] == Some(y)
    ensures Duplicates(ids, 4) == [y, x]
  {
    SecondsOfFour(ids, x, y);
    assert Duplicates(ids, 1) == [] by {
      DuplicatesStep(ids, 0);
    }
    assert Duplicates(ids, 2) == [] by {
      DuplicatesStep(ids, 1);
    }
    assert Duplicates(ids, 3) == [y] by {
      DuplicatesStep(ids, 2);
    }
    DuplicatesStep(ids, 3);
  }

  /** Records x, y, y, x: y is reported first, although x was seen first. */
  lemma NotFirstSeenOrder<T>(ids: seq<Option<T>>, x: T, y: T)
    requires x != y && |ids| == 4 && ids[0] == ids[3] == Some(x) && ids[1] == ids[2] == Some(y)
    ensures Duplicates(ids, |ids|) == [y, x] && !FirstSeenOrder(ids)
  {
    DuplicatesOfFour(ids, x, y);
    SecondsOfFour(ids, x, y);
    EnclosureBreaksOrder(ids, 0, 1, 2, 3);
  }

  // ----- correlation keys

  /** Row `i` repeats the correlation key of an earlier row. */
  predicate RepeatsReference(items: seq<Item>, i: nat)
    requires i < |items|
  {
    Given(items[i].reference) && exists j :: 0 <= j < i && items[j].reference == items[i].reference
  }

  predicate Given(s: Option<string>) {
    s.Some? && |s.value| > 0
  }

  predicate Uses(items: seq<Item>, n: nat, x: string)
    requires n <= |items|
  {
    exists k :: 0 <= k < n && Given(items[k].reference) && items[k].reference.value == x
  }

  lemma UsesNext(items: seq<Item>, i: nat)
    requires i < |items|
    ensures forall x :: Uses(items, i + 1, x) <==>
              Uses(items, i, x) || (Given(items[i].reference) && items[i].reference.value == x)
  {
    var reference := items[i].reference;
    forall x ensures Uses(items, i + 1, x) <==> Uses(items, i, x) || (Given(reference) && reference.value == x) {
      if Uses(items, i + 1, x) {
        var k :| 0 <= k < i + 1 && Given(items[k].reference) && items[k].reference.value == x;
        assert k < i ==> Uses(items, i, x);
      }
      if Uses(items, i, x) {
        var k :| 0 <= k < i && Given(items[k].reference) && items[k].reference.value == x;
        assert Uses(items, i + 1, x);
      }
      if Given(reference) && reference.value == x {
        assert 0 <= i < i + 1 && items[i].reference.value == x;
      }
    }
  }

  method UniqueReferences(items: seq<Item>) returns (issues: seq<nat>)
    ensures forall i :: i in issues <==> 0 <= i < |items| && RepeatsReference(items, i)
    ensures forall a, b :: 0 <= a < b < |issues| ==> issues[a] < issues[b]
    ensures issues == [] <==>
      forall i, j :: 0 <= i < j < |items| && Given(items[i].reference) ==> items[i].reference != items[j].reference
  {
    var seen: set<string> := {};
    issues := [];
    var i := 0;
    while i < |items|
      invariant 0 <= i <= |items|
      invariant forall x :: x in seen <==> Uses(items, i, x)
      invariant forall k :: k in issues <==> 0 <= k < i && RepeatsReference(items, k)
      invariant forall a, b :: 0 <= a < b < |issues| ==> issues[a] < issues[b]
    {
      var reference := items[i].reference;
      UsesNext(items, i);
      if Given(reference) {
        if reference.value in seen {
          assert forall a :: 0 <= a < |issues| ==> issues[a] in issues;
          issues := issues + [i];
        }
        seen := seen + {reference.value};
      }
      i := i + 1;
    }
    if issues != [] {
      assert issues[0] in issues;
    } else {
      forall i, j | 0 <= i < j < |items| && Given(items[i].reference)
        ensures items[i].reference != items[j].reference
      {
        assert j !in issues;
      }
    }
  }
}

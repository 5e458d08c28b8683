/** Objects with keys in insertion order, of which some keys are variants of one another. */
module FieldObjects {

  datatype Value = Text(text: string) | Number(number: real) | Flag(flag: bool) | Null
  datatype Field<K> = Field(name: K, value: Value)

  predicate DistinctNames<K(==)>(fields: seq<Field<K>>) {
    forall i, j :: 0 <= i < j < |fields| ==> fields[i].name != fields[j].name
  }

  predicate Has<K(==)>(fields: seq<Field<K>>, name: K) {
    exists i :: 0 <= i < |fields| && fields[i].name == name
  }

  /** The object after a key is deleted. */
  function Delete<K(==)>(fields: seq<Field<K>>, name: K): seq<Field<K>> {
    if fields == [] then []
    else if fields[0].name == name then Delete(fields[1..], name)
    else [fields[0]] + Delete(fields[1..], name)
  }

  /** The object after a key is assigned: in place when present, at the end otherwise. */
  function Assign<K(==)>(fields: seq<Field<K>>, name: K, value: Value): seq<Field<K>> {
    if fields == [] then [Field(name, value)]
    else if fields[0].name == name then [Field(name, value)] + fields[1..]
    else [fields[0]] + Assign(fields[1..], name, value)
  }

  /** The fields whose key is a variant, in key order. */
  function Variants<K>(variant: K -> bool, fields: seq<Field<K>>): seq<Field<K>> {
    if fields == [] then []
    else if variant(fields[0].name) then [fields[0]] + Variants(variant, fields[1..])
    else Variants(variant, fields[1..])
  }

  /** The other fields, in key order. */
  function Others<K>(variant: K -> bool, fields: seq<Field<K>>): seq<Field<K>> {
    if fields == [] then []
    else if variant(fields[0].name) then Others(variant, fields[1..])
    else [fields[0]] + Others(variant, fields[1..])
  }

  lemma {:induction false} VariantsMeaning<K>(variant: K -> bool, fields: seq<Field<K>>, f: Field<K>)
    ensures f in Variants(variant, fields) <==> f in fields && variant(f.name)
    ensures f in Others(variant, fields) <==> f in fields && !variant(f.name)
  {
    if fields != [] {
      VariantsMeaning(variant, fields[1..], f);
      assert f in fields <==> f == fields[0] || f in fields[1..];
    }
  }

  lemma SplitCons<K>(variant: K -> bool, f: Field<K>, rest: seq<Field<K>>)
    ensures Variants(variant, [f] + rest) == if variant(f.name) then [f] + Variants(variant, rest)
        else Variants(variant, rest)
    ensures Others(variant, [f] + rest) == if variant(f.name) then Others(variant, rest)
        else [f] + Others(variant, rest)
  {
    assert ([f] + rest)[1..] == rest;
  }

  lemma DeleteCons<K>(f: Field<K>, rest: seq<Field<K>>, name: K)
    ensures Delete([f] + rest, name) == if f.name == name then Delete(rest, name) else [f] + Delete(rest, name)
  {
    assert ([f] + rest)[1..] == rest;
  }

  lemma AssignCons<K>(f: Field<K>, rest: seq<Field<K>>, name: K, value: Value)
    ensures Assign([f] + rest, name, value)
         == if f.name == name then [Field(name, value)] + rest else [f] + Assign(rest, name, value)
  {
    assert ([f] + rest)[1..] == rest;
  }

  lemma {:induction false} DeleteVariant<K>(variant: K -> bool, fields: seq<Field<K>>, name: K)
    requires variant(name)
    ensures Variants(variant, Delete(fields, name)) == Delete(Variants(variant, fields), name)
    ensures Others(variant, Delete(fields, name)) == Others(variant, fields)
  {
    if fields != [] {
      var f, rest := fields[0], fields[1..];
      assert fields == [f] + rest;
      DeleteVariant(variant, rest, name);
      DeleteCons(f, rest, name);
      SplitCons(variant, f, rest);
      if f.name != name {
        SplitCons(variant, f, Delete(rest, name));
      }
      DeleteCons(f, Variants(variant, rest), name);
    }
  }

  lemma {:induction false} AssignVariant<K>(variant: K -> bool, fields: seq<Field<K>>, name: K, value: Value)
    requires variant(name)
    ensures Variants(variant, Assign(fields, name, value)) == Assign(Variants(variant, fields), name, value)
    ensures Others(variant, Assign(fields, name, value)) == Others(variant, fields)
  {
    if fields != [] {
      var f, rest := fields[0], fields[1..];
      assert fields == [f] + rest;
      AssignCons(f, rest, name, value);
      SplitCons(variant, f, rest);
      AssignCons(f, Variants(variant, rest), name, value);
      if f.name == name {
        SplitCons(variant, Field(name, value), rest);
      } else {
        AssignVariant(variant, rest, name, value);
        SplitCons(variant, f, Assign(rest, name, value));
      }
    }
  }

  lemma TailLacks<K>(fields: seq<Field<K>>, name: K)
    requires fields != [] && !Has(fields, name)
    ensures fields[0].name != name && !Has(fields[1..], name)
  {
    assert forall i :: 0 <= i < |fields[1..]| ==> fields[1..][i] == fields[i + 1];
  }

  lemma {:induction false} DeleteAbsent<K>(fields: seq<Field<K>>, name: K)
    requires !Has(fields, name)
    ensures Delete(fields, name) == fields
  {
    if fields != [] {
      TailLacks(fields, name);
      DeleteAbsent(fields[1..], name);
    }
  }

  lemma ConsSnoc<T>(xs: seq<T>, x: T)
    requires xs != []
    ensures [xs[0]] + (xs[1..] + [x]) == xs + [x]
  {
  }

  lemma {:induction false} AssignAbsent<K>(fields: seq<Field<K>>, name: K, value: Value)
    requires !Has(fields, name)
    ensures Assign(fields, name, value) == fields + [Field(name, value)]
  {
    if fields != [] {
      TailLacks(fields, name);
      AssignAbsent(fields[1..], name, value);
      ConsSnoc(fields, Field(name, value));
    }
  }

  lemma {:induction false} DeleteBetween<K>(a: seq<Field<K>>, f: Field<K>, b: seq<Field<K>>)
    requires !Has(a, f.name) && !Has(b, f.name)
    ensures Delete(a + [f] + b, f.name) == a + b
  {
    if a == [] {
      assert a + [f] + b == [f] + b && ([f] + b)[1..] == b && a + b == b;
      DeleteAbsent(b, f.name);
    } else {
      assert forall i :: 0 <= i < |a[1..]| ==> a[1..][i] == a[i + 1];
      assert (a + [f] + b)[1..] == a[1..] + [f] + b;
      DeleteBetween(a[1..], f, b);
      assert a + b == [a[0]] + (a[1..] + b);
    }
  }

  lemma {:induction false} OthersAppend<K>(variant: K -> bool, fields: seq<Field<K>>, f: Field<K>)
    ensures Others(variant, fields + [f]) == if variant(f.name) then Others(variant, fields)
        else Others(variant, fields) + [f]
  {
    if fields == [] {
      assert fields + [f] == [f];
    } else {
      assert (fields + [f])[1..] == fields[1..] + [f];
      OthersAppend(variant, fields[1..], f);
    }
  }

  /** One step of deleting the variants one after another. */
  lemma SweepStep<K>(variant: K -> bool, fields: seq<Field<K>>, i: nat)
    requires DistinctNames(fields) && i < |fields|
    ensures var now, next := Others(variant, fields[..i]) + fields[i..],
        Others(variant, fields[..i + 1]) + fields[i + 1..];
      next == if variant(fields[i].name) then Delete(now, fields[i].name) else now
  {
    var before, f := Others(variant, fields[..i]), fields[i];
    assert fields[..i + 1] == fields[..i] + [f];
    OthersAppend(variant, fields[..i], f);
    assert before + fields[i..] == before + [f] + fields[i + 1..];
    if variant(f.name) {
      forall k | 0 <= k < |before| ensures before[k].name != f.name {
        VariantsMeaning(variant, fields[..i], before[k]);
      }
      DeleteBetween(before, f, fields[i + 1..]);
    }
  }

  lemma {:induction false} VariantsDistinct<K>(variant: K -> bool, fields: seq<Field<K>>)
    requires DistinctNames(fields)
    ensures DistinctNames(Variants(variant, fields))
  {
    if fields != [] {
      var f, tail := fields[0], fields[1..];
      VariantsDistinct(variant, tail);
      var rest := Variants(variant, tail);
      forall i | 0 <= i < |rest| ensures rest[i].name != f.name {
        VariantsMeaning(variant, tail, rest[i]);
        var j :| 0 <= j < |tail| && tail[j] == rest[i];
        assert fields[j + 1] == rest[i];
      }
    }
  }

  lemma {:induction false} AssignLength<K>(fields: seq<Field<K>>, name: K, value: Value)
    ensures |Assign(fields, name, value)| == |fields| + if Has(fields, name) then 0 else 1
  {
    if fields != [] {
      AssignLength(fields[1..], name, value);
      if Has(fields, name) && fields[0].name != name {
        var i :| 0 <= i < |fields| && fields[i].name == name;
        assert fields[1..][i - 1].name == name;
      }
    }
  }

  /** The object after its first variant is deleted and the key `name` is assigned. */
  function ReplaceFirst<K(==)>(variant: K -> bool, fields: seq<Field<K>>, name: K, value: Value): seq<Field<K>> {
    var v := Variants(variant, fields);
    Assign(if v == [] then fields else Delete(fields, v[0].name), name, value)
  }

  /** The other fields stay as given; of the variants all but the first stay, with the key set
      among them. */
  lemma ReplaceFirstKeeps<K>(variant: K -> bool, fields: seq<Field<K>>, name: K, value: Value)
    requires DistinctNames(fields) && variant(name)
    ensures var r, v := ReplaceFirst(variant, fields, name, value), Variants(variant, fields);
      && Others(variant, r) == Others(variant, fields)
      && Variants(variant, r) == Assign(if v == [] then [] else v[1..], name, value)
  {
    var v := Variants(variant, fields);
    if v == [] {
      AssignVariant(variant, fields, name, value);
    } else {
      VariantsMeaning(variant, fields, v[0]);
      DeleteVariant(variant, fields, v[0].name);
      VariantsDistinct(variant, fields);
      assert v == [v[0]] + v[1..];
      DeleteCons(v[0], v[1..], v[0].name);
      DeleteAbsent(v[1..], v[0].name);
      AssignVariant(variant, Delete(fields, v[0].name), name, value);
    }
  }
}

/** Expansion of comma-separated first fields; the other fields are duplicated. */
module CommaExpansion {
  import opened Text

  /** A struct: its first field, a string, and the others. */
  datatype Obj<T> = Obj(field: string, others: T)

  /** `strings.ReplaceAll(s, " ", "")`. */
  function Squeeze(s: string): string {
    if s == "" then ""
    else if s[0] == ' ' then Squeeze(s[1..])
    else [s[0]] + Squeeze(s[1..])
  }

  /** `ObjCommaCanBeExpanded`: only the first element is looked at. */
  predicate CanBeExpanded<T>(objs: seq<Obj<T>>) {
    |objs| > 0 && Split(objs[0].field, ',')[0] != objs[0].field
  }

  function ExpandOne<T>(obj: Obj<T>): (r: seq<Obj<T>>)
    ensures |r| == |Split(obj.field, ',')|
    ensures forall i :: 0 <= i < |r| ==> r[i] == Obj(Squeeze(Split(obj.field, ',')[i]), obj.others)
  {
    var parts := Split(obj.field, ',');
    seq(|parts|, i requires 0 <= i < |parts| => Obj(Squeeze(parts[i]), obj.others))
  }

  /** One group per element, in order. */
  function ExpandAll<T>(objs: seq<Obj<T>>): seq<Obj<T>> {
    if objs == [] then [] else ExpandAll(objs[..|objs| - 1]) + ExpandOne(objs[|objs| - 1])
  }

  function Expanded<T>(objs: seq<Obj<T>>): seq<Obj<T>> {
    if CanBeExpanded(objs) then ExpandAll(objs) else objs
  }

  lemma CanBeExpandedExactlyWhen<T>(objs: seq<Obj<T>>)
    ensures CanBeExpanded(objs) <==> objs != [] && ',' in objs[0].field
  {
    if objs != [] {
      SplitMeaning(objs[0].field, ',');
      if ',' !in objs[0].field {
        SplitWithout(objs[0].field, ',');
      }
    }
  }

  // ---- one group ----

  lemma SqueezeHead(s: string)
    requires s != ""
    ensures Squeeze(s) == (if s[0] == ' ' then "" else [s[0]]) + Squeeze(s[1..])
  {}

  lemma {:induction false} SqueezeConcat(a: string, b: string)
    ensures Squeeze(a + b) == Squeeze(a) + Squeeze(b)
  {
    if a == "" {
      assert a + b == b;
    } else {
      var s := a + b;
      SqueezeConcat(a[1..], b);
      assert s[0] == a[0] && s[1..] == a[1..] + b;
      SqueezeHead(a);
      SqueezeHead(s);
      AppendAssociates(if a[0] == ' ' then "" else [a[0]], Squeeze(a[1..]), Squeeze(b));
    }
  }

  lemma AppendAssociates(a: string, b: string, c: string)
    ensures a + (b + c) == (a + b) + c
  {}

  /** Squeezing takes out the spaces and leaves every other character where it is. */
  lemma SqueezeExactly(a: string, c: char, b: string)
    ensures Squeeze("") == ""
    ensures Squeeze(a + [c] + b) == Squeeze(a) + (if c == ' ' then "" else [c]) + Squeeze(b)
  {
    SqueezeConcat(a + [c], b);
    SqueezeConcat(a, [c]);
    SqueezeHead([c]);
  }

  lemma {:induction false} SqueezeClean(s: string, c: char)
    ensures ' ' !in Squeeze(s)
    ensures c !in s ==> c !in Squeeze(s)
  {
    if s != "" {
      SqueezeClean(s[1..], c);
    }
  }

  function Squeezed(parts: seq<string>): (r: seq<string>)
    ensures |r| == |parts| && forall i :: 0 <= i < |r| ==> r[i] == Squeeze(parts[i])
  {
    seq(|parts|, i requires 0 <= i < |parts| => Squeeze(parts[i]))
  }

  lemma {:induction false} SqueezeJoin(parts: seq<string>)
    ensures Join(Squeezed(parts), ',') == Squeeze(Join(parts, ','))
  {
    if |parts| > 1 {
      SqueezeJoin(parts[1..]);
      assert Squeezed(parts)[1..] == Squeezed(parts[1..]);
      SqueezeConcat(parts[0] + [','], Join(parts[1..], ','));
      SqueezeConcat(parts[0], [',']);
      assert Squeeze([',']) == [','];
    }
  }

  function Fields<T>(objs: seq<Obj<T>>): (r: seq<string>)
    ensures |r| == |objs| && forall i :: 0 <= i < |r| ==> r[i] == objs[i].field
  {
    seq(|objs|, i requires 0 <= i < |objs| => objs[i].field)
  }

  /**
   A group has one element per comma and one more, clean fields and copied others, and it joins
   back to the squeezed original.
   */
  lemma GroupMeaning<T>(obj: Obj<T>)
    ensures |ExpandOne(obj)| == 1 + Occurrences(obj.field, ',')
    ensures forall o <- ExpandOne(obj) :: ',' !in o.field && ' ' !in o.field && o.others == obj.others
    ensures Join(Fields(ExpandOne(obj)), ',') == Squeeze(obj.field)
  {
    var parts := Split(obj.field, ',');
    SplitMeaning(obj.field, ',');
    forall i | 0 <= i < |parts| ensures ',' !in Squeeze(parts[i]) && ' ' !in Squeeze(parts[i]) {
      SqueezeClean(parts[i], ',');
    }
    SqueezeJoin(parts);
    assert Fields(ExpandOne(obj)) == Squeezed(parts);
  }

  // ---- the whole slice ----

  /** Where group `i` starts. */
  function Offset<T>(objs: seq<Obj<T>>, i: nat): nat
    requires i <= |objs|
  {
    if i == 0 then 0 else Offset(objs, i - 1) + 1 + Occurrences(objs[i - 1].field, ',')
  }

  lemma {:induction false} OffsetPrefix<T>(objs: seq<Obj<T>>, n: nat, i: nat)
    requires i <= n <= |objs|
    ensures Offset(objs[..n], i) == Offset(objs, i)
  {
    if i > 0 { OffsetPrefix(objs, n, i - 1); }
  }

  lemma {:induction false} ExpansionLength<T>(objs: seq<Obj<T>>)
    ensures |ExpandAll(objs)| == Offset(objs, |objs|)
  {
    if objs != [] {
      var n := |objs| - 1;
      ExpansionLength(objs[..n]);
      OffsetPrefix(objs, n, n);
      GroupMeaning(objs[n]);
    }
  }

  /** The result is the groups one after the other: the total length, and group `i` at its offset. */
  lemma {:induction false} ExpansionIsGroups<T>(objs: seq<Obj<T>>, i: nat)
    requires i < |objs|
    ensures |ExpandAll(objs)| == Offset(objs, |objs|)
    ensures Offset(objs, i) <= Offset(objs, i + 1) <= |ExpandAll(objs)|
    ensures ExpandAll(objs)[Offset(objs, i)..Offset(objs, i + 1)] == ExpandOne(objs[i])
  {
    var n := |objs| - 1;
    ExpansionLength(objs);
    if i < n {
      ExpansionIsGroups(objs[..n], i);
      OffsetPrefix(objs, n, i);
      OffsetPrefix(objs, n, i + 1);
      SliceOfFront(ExpandAll(objs[..n]), ExpandOne(objs[n]), Offset(objs, i), Offset(objs, i + 1));
    } else {
      LastGroup(objs);
    }
  }

  lemma LastGroup<T>(objs: seq<Obj<T>>)
    requires objs != []
    ensures Offset(objs, |objs| - 1) <= Offset(objs, |objs|) == |ExpandAll(objs)|
    ensures ExpandAll(objs)[Offset(objs, |objs| - 1)..Offset(objs, |objs|)] == ExpandOne(objs[|objs| - 1])
  {
    var n := |objs| - 1;
    var front, last := ExpandAll(objs[..n]), ExpandOne(objs[n]);
    ExpansionLength(objs);
    ExpansionLength(objs[..n]);
    OffsetPrefix(objs, n, n);
    assert Offset(objs, n) == |front| && ExpandAll(objs) == front + last;
    SliceOfLast(front, last);
  }

  lemma SliceOfLast<T>(front: seq<T>, last: seq<T>)
    ensures (front + last)[|front|..|front + last|] == last
  {}

  lemma SliceOfFront<T>(front: seq<T>, last: seq<T>, lo: nat, hi: nat)
    requires lo <= hi <= |front|
    ensures (front + last)[lo..hi] == front[lo..hi]
  {}

  lemma {:induction false} ExpansionIsClean<T>(objs: seq<Obj<T>>)
    ensures forall o <- ExpandAll(objs) :: ',' !in o.field && ' ' !in o.field
  {
    if objs != [] {
      ExpansionIsClean(objs[..|objs| - 1]);
      GroupMeaning(objs[|objs| - 1]);
    }
  }

  /** A second application changes nothing. */
  lemma ExpansionIsIdempotent<T>(objs: seq<Obj<T>>)
    ensures Expanded(Expanded(objs)) == Expanded(objs)
  {
    if CanBeExpanded(objs) {
      ExpansionIsClean(objs);
      CanBeExpandedExactlyWhen(ExpandAll(objs));
      assert ExpandAll(objs) != [] ==> ExpandAll(objs)[0] in ExpandAll(objs);
    }
  }

  // ---- the function on the caller's slice ----

  /** The group of `obj` stands at `out[lo..hi]`. */
  ghost predicate GroupAt<T>(obj: Obj<T>, out: seq<Obj<T>>, lo: nat, hi: nat) {
    && hi == lo + 1 + Occurrences(obj.field, ',') && hi <= |out|
    && (forall j :: lo <= j < hi ==> ',' !in out[j].field && ' ' !in out[j].field && out[j].others == obj.others)
    && Join(Fields(out[lo..hi]), ',') == Squeeze(obj.field)
  }

  lemma InSlice<T>(out: seq<T>, lo: nat, hi: nat, group: seq<T>, j: nat)
    requires lo <= j < hi <= |out| && out[lo..hi] == group
    ensures out[j] in group
  {
    assert group[j - lo] == out[j];
  }

  lemma GroupStands<T>(objs: seq<Obj<T>>, i: nat)
    requires i < |objs|
    ensures GroupAt(objs[i], ExpandAll(objs), Offset(objs, i), Offset(objs, i + 1))
  {
    var out, lo, hi := ExpandAll(objs), Offset(objs, i), Offset(objs, i + 1);
    ExpansionIsGroups(objs, i);
    GroupMeaning(objs[i]);
    forall j | lo <= j < hi ensures ',' !in out[j].field && ' ' !in out[j].field && out[j].others == objs[i].others {
      InSlice(out, lo, hi, ExpandOne(objs[i]), j);
    }
  }

  /** A slice whose first field has a comma is replaced by its groups, one after the other; any other stays. */
  lemma ExpandedMeaning<T>(objs: seq<Obj<T>>)
    ensures objs == [] || ',' !in objs[0].field ==> Expanded(objs) == objs
    ensures objs != [] && ',' in objs[0].field ==>
              && |Expanded(objs)| == Offset(objs, |objs|)
              && forall i :: 0 <= i < |objs| ==> GroupAt(objs[i], Expanded(objs), Offset(objs, i), Offset(objs, i + 1))
  {
    CanBeExpandedExactlyWhen(objs);
    if objs != [] && ',' in objs[0].field {
      ExpansionLength(objs);
      forall i | 0 <= i < |objs|
        ensures GroupAt(objs[i], Expanded(objs), Offset(objs, i), Offset(objs, i + 1))
      {
        GroupStands(objs, i);
      }
    }
  }

  class Pointer<T> {
    var slice: seq<Obj<T>>

    /** `ObjCommaExpandFirstDupOthers` overwrites the slice it points to. */
    method ObjCommaExpandFirstDupOthers()
      modifies this
      ensures old(slice) == [] || ',' !in old(slice)[0].field ==> slice == old(slice)
      ensures old(slice) != [] && ',' in old(slice)[0].field ==>
                && |slice| == Offset(old(slice), |old(slice)|)
                && forall i :: 0 <= i < |old(slice)| ==>
                     GroupAt(old(slice)[i], slice, Offset(old(slice), i), Offset(old(slice), i + 1))
      ensures slice == Expanded(old(slice))
    {
      ExpandedMeaning(slice);
      if |slice| == 0 || Split(slice[0].field, ',')[0] == slice[0].field {
        return;
      }
      ExpandEvery();
    }

    /** The two loops. */
    method ExpandEvery()
      modifies this
      ensures slice == ExpandAll(old(slice))
    {
      var fresh' := [];
      for i := 0 to |slice|
        invariant slice == old(slice)
        invariant fresh' == ExpandAll(slice[..i])
      {
        var parts := Split(slice[i].field, ',');
        ghost var before := fresh';
        for j := 0 to |parts|
          invariant slice == old(slice)
          invariant fresh' == before + ExpandOne(slice[i])[..j]
        {
          fresh' := fresh' + [Obj(Squeeze(parts[j]), slice[i].others)];
        }
        assert slice[..i + 1][..i] == slice[..i];
      }
      assert slice[..|slice|] == slice;
      slice := fresh';
    }
  }
}

/**
 * `load_all_psg`: every annotation file of a folder, taken in sorted order, is
 * flattened and stored under the subject id read out of its file name.
 *
 * The folder listing is a sequence of file names (the `*.xml` matches of the
 * folder, all in one directory, so that under POSIX path ordering the order of
 * the paths is the order of the names) and the XML parse is the function
 * `parse`, kept uninterpreted.
 */
module PsgLoader {
  import opened Wrappers
  import opened Annotations
  import opened SubjectIds

  // ---------------------------------------------------------------------------
  // `sorted()` on the listing
  // ---------------------------------------------------------------------------

  /** Python's string order: lexicographic by code point, a prefix first. */
  predicate NameLe(a: string, b: string)
    decreases |a|
  {
    a == [] || (b != [] && (a[0] < b[0] || (a[0] == b[0] && NameLe(a[1..], b[1..]))))
  }

  lemma {:induction false} NameLeRefl(a: string)
    ensures NameLe(a, a)
    decreases |a|
  {
    if a != [] {
      NameLeRefl(a[1..]);
    }
  }

  lemma {:induction false} NameLeTotal(a: string, b: string)
    ensures NameLe(a, b) || NameLe(b, a)
    decreases |a|
  {
    if a != [] && b != [] && a[0] == b[0] {
      NameLeTotal(a[1..], b[1..]);
    }
  }

  lemma {:induction false} NameLeAntisymmetric(a: string, b: string)
    requires NameLe(a, b) && NameLe(b, a)
    ensures a == b
    decreases |a|
  {
    if a != [] {
      NameLeAntisymmetric(a[1..], b[1..]);
      assert a == [a[0]] + a[1..] && b == [b[0]] + b[1..];
    }
  }

  lemma {:induction false} NameLeTransitive(a: string, b: string, c: string)
    requires NameLe(a, b) && NameLe(b, c)
    ensures NameLe(a, c)
    decreases |a|
  {
    if a != [] && a[0] == b[0] && b[0] == c[0] {
      NameLeTransitive(a[1..], b[1..], c[1..]);
    }
  }

  predicate Sorted(s: seq<string>) {
    forall i, j :: 0 <= i < j < |s| ==> NameLe(s[i], s[j])
  }

  /** Inserts `x` into a sorted sequence just before the first element above it. */
  function Insert(x: string, s: seq<string>): (r: seq<string>)
    requires Sorted(s)
    ensures Sorted(r)
    ensures multiset(r) == multiset(s) + multiset{x}
  {
    if s == [] then [x]
    else if NameLe(x, s[0]) then
      InsertFront(x, s);
      [x] + s
    else
      NameLeTotal(x, s[0]);
      var t := Insert(x, s[1..]);
      assert s == [s[0]] + s[1..];
      InsertBehind(s[0], s[1..], x, t);
      [s[0]] + t
  }

  /** `x` can go in front of a sorted sequence whose first element is not below it. */
  lemma InsertFront(x: string, s: seq<string>)
    requires Sorted(s) && s != [] && NameLe(x, s[0])
    ensures Sorted([x] + s)
  {
    var r := [x] + s;
    forall i, j | 0 <= i < j < |r| ensures NameLe(r[i], r[j]) {
      if i == 0 {
        if j > 1 {
          NameLeTransitive(x, s[0], s[j - 1]);
        }
      } else {
        assert r[i] == s[i - 1] && r[j] == s[j - 1];
      }
    }
  }

  /** `h` can go in front of a sorted `t` built from `s` and `x`, all not below `h`. */
  lemma InsertBehind(h: string, s: seq<string>, x: string, t: seq<string>)
    requires Sorted([h] + s) && Sorted(t) && NameLe(h, x)
    requires multiset(t) == multiset(s) + multiset{x}
    ensures Sorted([h] + t)
  {
    var r := [h] + t;
    forall i, j | 0 <= i < j < |r| ensures NameLe(r[i], r[j]) {
      if i == 0 {
        assert t[j - 1] in multiset(t);
        if t[j - 1] != x {
          assert t[j - 1] in multiset(s);
          var k :| 0 <= k < |s| && s[k] == t[j - 1];
          assert ([h] + s)[0] == h && ([h] + s)[k + 1] == s[k];
          assert NameLe(([h] + s)[0], ([h] + s)[k + 1]);
        }
        assert r[0] == h && r[j] == t[j - 1];
      } else {
        assert r[i] == t[i - 1] && r[j] == t[j - 1];
      }
    }
  }

  /** `sorted(listing)`: the names in ascending order, each as often as listed. */
  function SortNames(listing: seq<string>): (r: seq<string>)
    ensures Sorted(r)
    ensures multiset(r) == multiset(listing)
  {
    if listing == [] then []
    else
      assert listing == [listing[0]] + listing[1..];
      Insert(listing[0], SortNames(listing[1..]))
  }

  /** The first element of a sorted sequence is not above any element of it. */
  lemma SortedFirstLeast(s: seq<string>, x: string)
    requires Sorted(s) && x in s
    ensures NameLe(s[0], x)
  {
    var i :| 0 <= i < |s| && s[i] == x;
    if i == 0 {
      NameLeRefl(x);
    }
  }

  /** Two sorted arrangements of the same names start with the same name. */
  lemma SortedSameFirst(a: seq<string>, b: seq<string>)
    requires Sorted(a) && Sorted(b) && multiset(a) == multiset(b) && a != []
    ensures b != [] && a[0] == b[0]
  {
    assert a[0] in multiset(b);
    assert b[0] in multiset(a);
    SortedFirstLeast(a, b[0]);
    SortedFirstLeast(b, a[0]);
    NameLeAntisymmetric(a[0], b[0]);
  }

  /** Removing the common first element leaves the same collection. */
  lemma TailMultisets(a: seq<string>, b: seq<string>)
    requires a != [] && b != [] && a[0] == b[0] && multiset(a) == multiset(b)
    ensures multiset(a[1..]) == multiset(b[1..])
  {
    assert a == [a[0]] + a[1..] && b == [b[0]] + b[1..];
    assert multiset(a[1..]) == multiset(a) - multiset{a[0]} by {
      assert multiset(a) == multiset{a[0]} + multiset(a[1..]);
    }
    assert multiset(b[1..]) == multiset(b) - multiset{b[0]} by {
      assert multiset(b) == multiset{b[0]} + multiset(b[1..]);
    }
  }

  /** There is only one sorted arrangement of a collection of names. */
  lemma {:induction false} SortedUnique(a: seq<string>, b: seq<string>)
    requires Sorted(a) && Sorted(b) && multiset(a) == multiset(b)
    ensures a == b
    decreases |a|
  {
    if a == [] {
      assert |multiset(b)| == 0;
    } else {
      SortedSameFirst(a, b);
      TailMultisets(a, b);
      SortedUnique(a[1..], b[1..]);
      assert a == [a[0]] + a[1..] && b == [b[0]] + b[1..];
    }
  }

  /** Sorting does not depend on the order the folder is listed in. */
  lemma SortNamesOrderIndependent(l1: seq<string>, l2: seq<string>)
    requires multiset(l1) == multiset(l2)
    ensures SortNames(l1) == SortNames(l2)
  {
    SortedUnique(SortNames(l1), SortNames(l2));
  }

  // ---------------------------------------------------------------------------
  // The key-building loop
  // ---------------------------------------------------------------------------

  /** `re.findall(...)[0]` raises on a file name without four digits in a row,
      which ends the whole load. */
  datatype LoadError = NoSubjectId(name: string)

  /** The ids that the names yield. */
  function IdsOf(names: seq<string>): set<string> {
    set n | n in names && SubjectId(n).Some? :: SubjectId(n).value
  }

  /** The loop from the point where `acc` holds the tables so far and `names`
      remain: each name's id is bound to its flattened file, overwriting an
      earlier binding; a name without an id stops the loop with an error. */
  function CollectFrom(acc: map<string, Timeline>, names: seq<string>, parse: string -> Document)
    : Result<map<string, Timeline>, LoadError>
    decreases |names|
  {
    if names == [] then Success(acc)
    else
      match SubjectId(names[0])
      case None => Failure(NoSubjectId(names[0]))
      case Some(id) => CollectFrom(acc[id := Flatten(parse(names[0]))], names[1..], parse)
  }

  /** What `load_all_psg` returns for a folder listing. */
  function PsgTables(listing: seq<string>, parse: string -> Document): Result<map<string, Timeline>, LoadError> {
    CollectFrom(map[], SortNames(listing), parse)
  }

  /** `load_all_psg` after the listing: `psg` starts empty and is extended in
      sorted order, one file at a time. */
  method LoadAllPsg(listing: seq<string>, parse: string -> Document)
    returns (r: Result<map<string, Timeline>, LoadError>)
    ensures r == PsgTables(listing, parse)
  {
    var pathList := SortNames(listing);
    var psg: map<string, Timeline> := map[];
    var k := 0;
    while k < |pathList|
      invariant 0 <= k <= |pathList|
      invariant CollectFrom(psg, pathList[k..], parse) == PsgTables(listing, parse)
    {
      var name := pathList[k];
      assert pathList[k..][0] == name && pathList[k..][1..] == pathList[k + 1..];
      var i := SubjectId(name);
      if i.None? {
        return Failure(NoSubjectId(name));
      }
      var time, sleep := XmlReader(parse(name));
      psg := psg[i.value := Timeline(time, sleep)];
      k := k + 1;
    }
    assert pathList[k..] == [];
    return Success(psg);
  }

  // ---------------------------------------------------------------------------
  // Properties of the loop
  // ---------------------------------------------------------------------------

  /** The loop runs to the end exactly when every name yields an id; otherwise
      it reports the first name that does not. */
  lemma {:induction false} CollectOutcome(acc: map<string, Timeline>, names: seq<string>, parse: string -> Document)
    ensures CollectFrom(acc, names, parse).Success? <==> forall i :: 0 <= i < |names| ==> SubjectId(names[i]).Some?
    ensures CollectFrom(acc, names, parse).Failure? ==>
              exists i :: 0 <= i < |names| && SubjectId(names[i]).None?
                && (forall k :: 0 <= k < i ==> SubjectId(names[k]).Some?)
                && CollectFrom(acc, names, parse).error == NoSubjectId(names[i])
    decreases |names|
  {
    if names != [] && SubjectId(names[0]).Some? {
      var id := SubjectId(names[0]).value;
      var acc' := acc[id := Flatten(parse(names[0]))];
      CollectOutcome(acc', names[1..], parse);
      if CollectFrom(acc', names[1..], parse).Failure? {
        var i :| 0 <= i < |names[1..]| && SubjectId(names[1..][i]).None?
                 && (forall k :: 0 <= k < i ==> SubjectId(names[1..][k]).Some?)
                 && CollectFrom(acc', names[1..], parse).error == NoSubjectId(names[1..][i]);
        assert SubjectId(names[i + 1]).None?;
        assert forall k :: 0 <= k < i + 1 ==> SubjectId(names[k]).Some? by {
          forall k | 0 < k < i + 1 ensures SubjectId(names[k]).Some? {
            assert names[k] == names[1..][k - 1];
          }
        }
      } else {
        forall i | 0 <= i < |names| ensures SubjectId(names[i]).Some? {
          if i > 0 {
            assert names[i] == names[1..][i - 1];
          }
        }
      }
    }
  }

  /** The names yielding ids are the first one and those after it. */
  lemma IdsOfCons(names: seq<string>)
    requires names != [] && SubjectId(names[0]).Some?
    ensures IdsOf(names) == {SubjectId(names[0]).value} + IdsOf(names[1..])
  {
    assert names == [names[0]] + names[1..];
    assert forall n :: n in names <==> n == names[0] || n in names[1..];
  }

  /** When the loop succeeds, its keys are those it started with plus the id of
      every remaining name. */
  lemma {:induction false} CollectKeys(acc: map<string, Timeline>, names: seq<string>, parse: string -> Document)
    requires CollectFrom(acc, names, parse).Success?
    ensures CollectFrom(acc, names, parse).value.Keys == acc.Keys + IdsOf(names)
    decreases |names|
  {
    if names == [] {
      assert IdsOf(names) == {};
    } else {
      var id := SubjectId(names[0]).value;
      CollectKeys(acc[id := Flatten(parse(names[0]))], names[1..], parse);
      IdsOfCons(names);
    }
  }

  /** A binding that no remaining name's id touches survives the loop. */
  lemma {:induction false} CollectKeepsOthers(acc: map<string, Timeline>, names: seq<string>, parse: string -> Document, id: string)
    requires CollectFrom(acc, names, parse).Success?
    requires id in acc && id !in IdsOf(names)
    ensures id in CollectFrom(acc, names, parse).value
    ensures CollectFrom(acc, names, parse).value[id] == acc[id]
    decreases |names|
  {
    if names != [] {
      var id0 := SubjectId(names[0]).value;
      IdsOfCons(names);
      CollectKeepsOthers(acc[id0 := Flatten(parse(names[0]))], names[1..], parse, id);
    }
  }

  /** When several names yield the same id, the last of them wins: its file's
      timeline is what the id is bound to at the end. */
  lemma {:induction false} CollectLastWins(acc: map<string, Timeline>, names: seq<string>, parse: string -> Document, i: nat)
    requires CollectFrom(acc, names, parse).Success?
    requires i < |names| && SubjectId(names[i]).Some?
    requires forall k :: i < k < |names| ==> SubjectId(names[k]) != SubjectId(names[i])
    ensures SubjectId(names[i]).value in CollectFrom(acc, names, parse).value
    ensures CollectFrom(acc, names, parse).value[SubjectId(names[i]).value] == Flatten(parse(names[i]))
    decreases |names|
  {
    var id0 := SubjectId(names[0]).value;
    var acc' := acc[id0 := Flatten(parse(names[0]))];
    if i == 0 {
      assert id0 !in IdsOf(names[1..]) by {
        forall n | n in names[1..] && SubjectId(n).Some? ensures SubjectId(n).value != id0 {
          var k :| 0 <= k < |names[1..]| && names[1..][k] == n;
          assert names[k + 1] == n;
        }
      }
      CollectKeepsOthers(acc', names[1..], parse, id0);
    } else {
      assert names[1..][i - 1] == names[i];
      forall k | i - 1 < k < |names[1..]| ensures SubjectId(names[1..][k]) != SubjectId(names[i]) {
        assert names[1..][k] == names[k + 1];
      }
      CollectLastWins(acc', names[1..], parse, i - 1);
    }
  }

  // ---------------------------------------------------------------------------
  // Properties of the result
  // ---------------------------------------------------------------------------

  /** Loading succeeds exactly when every listed file name holds four digits in
      a row; the keys are then exactly the ids of the listed files. */
  lemma PsgTablesKeys(listing: seq<string>, parse: string -> Document)
    ensures PsgTables(listing, parse).Success? <==> forall n :: n in listing ==> SubjectId(n).Some?
    ensures PsgTables(listing, parse).Success? ==> PsgTables(listing, parse).value.Keys == IdsOf(listing)
  {
    var s := SortNames(listing);
    assert forall n :: n in s <==> n in listing by {
      forall n ensures n in s <==> n in listing {
        assert n in s <==> n in multiset(s);
        assert n in listing <==> n in multiset(listing);
      }
    }
    CollectOutcome(map[], s, parse);
    assert (forall i :: 0 <= i < |s| ==> SubjectId(s[i]).Some?) <==> forall n :: n in s ==> SubjectId(n).Some?;
    if PsgTables(listing, parse).Success? {
      CollectKeys(map[], s, parse);
      assert IdsOf(s) == IdsOf(listing);
    }
  }

  /** When loading fails, the error names a listed file without an id, and every
      file before it in sorted order has one. */
  lemma PsgTablesError(listing: seq<string>, parse: string -> Document)
    requires PsgTables(listing, parse).Failure?
    ensures PsgTables(listing, parse).error.name in listing
    ensures SubjectId(PsgTables(listing, parse).error.name).None?
    ensures forall n :: (n in listing && NameLe(n, PsgTables(listing, parse).error.name)
                         && n != PsgTables(listing, parse).error.name) ==> SubjectId(n).Some?
  {
    var s := SortNames(listing);
    CollectOutcome(map[], s, parse);
    var i :| 0 <= i < |s| && SubjectId(s[i]).None?
             && (forall k :: 0 <= k < i ==> SubjectId(s[k]).Some?)
             && PsgTables(listing, parse).error == NoSubjectId(s[i]);
    assert s[i] in multiset(listing);
    forall n | n in listing && NameLe(n, s[i]) && n != s[i] ensures SubjectId(n).Some? {
      assert n in multiset(s);
      var k :| 0 <= k < |s| && s[k] == n;
      if k > i {
        NameLeAntisymmetric(n, s[i]);
      }
    }
  }

  /** Of several listed files sharing an id, the one last in sorted order is
      the one whose timeline the id maps to. */
  lemma PsgTablesLaterWins(listing: seq<string>, parse: string -> Document, n: string)
    requires PsgTables(listing, parse).Success?
    requires n in listing && SubjectId(n).Some?
    requires forall m :: m in listing && SubjectId(m) == SubjectId(n) ==> NameLe(m, n)
    ensures SubjectId(n).value in PsgTables(listing, parse).value
    ensures PsgTables(listing, parse).value[SubjectId(n).value] == Flatten(parse(n))
  {
    var s := SortNames(listing);
    assert n in multiset(s);
    var i :| 0 <= i < |s| && s[i] == n;
    var last := LastIndexWith(s, i);
    assert s[last] in multiset(listing);
    if last > i {
      NameLeAntisymmetric(s[i], s[last]);
    }
    CollectLastWins(map[], s, parse, last);
  }

  /** The last index at or after `i` whose name yields the same id as `s[i]`. */
  function LastIndexWith(s: seq<string>, i: nat): (k: nat)
    requires i < |s|
    ensures i <= k < |s| && SubjectId(s[k]) == SubjectId(s[i])
    ensures forall m :: k < m < |s| ==> SubjectId(s[m]) != SubjectId(s[i])
    decreases |s| - i
  {
    if exists m :: i < m < |s| && SubjectId(s[m]) == SubjectId(s[i]) then
      var m :| i < m < |s| && SubjectId(s[m]) == SubjectId(s[i]);
      LastIndexWith(s, m)
    else i
  }

  /** The result does not depend on the order in which the folder lists its files. */
  lemma PsgTablesOrderIndependent(l1: seq<string>, l2: seq<string>, parse: string -> Document)
    requires multiset(l1) == multiset(l2)
    ensures PsgTables(l1, parse) == PsgTables(l2, parse)
  {
    SortNamesOrderIndependent(l1, l2);
  }

  // ---------------------------------------------------------------------------
  // `load_single_psg`
  // ---------------------------------------------------------------------------

  /** `load_single_psg`: the timeline of the annotation file named after the
      subject id with `{:04d}`, `parse` reading a file of the annotation folder. */
  function LoadSinglePsg(id: int, parse: string -> Document): Timeline {
    Flatten(parse(PsgFileName(id)))
  }

  /** Loading one subject by its id gives what the batch load stores under the
      id's four-digit key, provided no other listed file with that key comes
      later in sorted order. */
  lemma SingleAgreesWithBatch(listing: seq<string>, parse: string -> Document, id: int)
    requires PsgTables(listing, parse).Success?
    requires 0 <= id < 10000 && PsgFileName(id) in listing
    requires forall m :: m in listing && SubjectId(m) == Some(FormatId(id)) ==> NameLe(m, PsgFileName(id))
    ensures FormatId(id) in PsgTables(listing, parse).value
    ensures PsgTables(listing, parse).value[FormatId(id)] == LoadSinglePsg(id, parse)
  {
    PsgFileNameRoundTrip(id);
    PsgTablesLaterWins(listing, parse, PsgFileName(id));
  }
}

/** Patch names as far as the codecs need them: their text and their ordering.
    The patch-name grammar itself (patchname.rs) is not part of this model; parsing
    a name is a collaborator passed to the description parser. */
module Names {
  import opened Bytes

  datatype PatchName = PatchName(text: seq<byte>)

  /** The `Ord` of `PatchName`: byte-wise order of the name's text. */
  predicate NameLess(a: PatchName, b: PatchName) {
    LexLess(a.text, b.text)
  }

  predicate StrictlyAscending(names: seq<PatchName>) {
    forall i, j :: 0 <= i < j < |names| ==> NameLess(names[i], names[j])
  }

  lemma NameLessAsymmetric()
    ensures forall a, b :: NameLess(a, b) ==> !NameLess(b, a)
  {
    forall a, b | NameLess(a, b)
      ensures !NameLess(b, a)
    {
      LexLessAsymmetric(a.text, b.text);
    }
  }

  /** Adding `x` to a set whose least name is `m` keeps `m` least when `m` is below `x`,
      and otherwise makes `x` the least. */
  lemma MinOfAddition(rest: set<PatchName>, m: PatchName, x: PatchName) returns (m': PatchName)
    requires m in rest && x !in rest
    requires forall n :: n in rest && n != m ==> NameLess(m, n)
    ensures m' in rest + {x} && forall n :: n in rest + {x} && n != m' ==> NameLess(m', n)
  {
    if NameLess(m, x) {
      m' := m;
    } else {
      m' := x;
      LexLessTotal(m.text, x.text);
      forall n | n in rest + {x} && n != x
        ensures NameLess(x, n)
      {
        if n != m {
          LexLessTransitive(x.text, m.text, n.text);
        }
      }
    }
  }

  lemma {:induction false} MinNameExists(s: set<PatchName>)
    requires s != {}
    ensures exists m :: m in s && forall n :: n in s && n != m ==> NameLess(m, n)
    decreases |s|
  {
    var x :| x in s;
    if s != {x} {
      var rest := s - {x};
      MinNameExists(rest);
      var m :| m in rest && forall n :: n in rest && n != m ==> NameLess(m, n);
      var m' := MinOfAddition(rest, m, x);
      assert rest + {x} == s;
    }
  }

  /** The least name of a non-empty set. */
  function MinName(s: set<PatchName>): (m: PatchName)
    requires s != {}
    ensures m in s
    ensures forall n :: n in s && n != m ==> NameLess(m, n)
  {
    MinNameExists(s);
    NameLessAsymmetric();
    var m :| m in s && forall n :: n in s && n != m ==> NameLess(m, n);
    m
  }

  /** The order in which a `BTreeMap` keyed by patch name visits the names `s`. */
  function SortedNames(s: set<PatchName>): (r: seq<PatchName>)
    ensures |r| == |s|
    ensures forall n :: n in r <==> n in s
    ensures StrictlyAscending(r)
    decreases |s|
  {
    if s == {} then []
    else
      var m := MinName(s);
      [m] + SortedNames(s - {m})
  }
}

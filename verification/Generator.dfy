/**
 The parser generator of server/__init__.py: adjacent scalars are packed and received together, and
 each pack becomes one receive call. Also the C++ extraction those calls perform on a scalar pack.
 */
module Generator {
  import opened Bytes
  import opened Wire

  datatype Pack =
    | ScalarPack(types: seq<Scalar>)
    | ArrayPack(elem: Scalar, n: nat)
    | VectorPack(elem: Scalar)
    | StringPack

  function ScalarArgs(types: seq<Scalar>): (ts: seq<ArgType>)
    ensures |ts| == |types| && forall i :: 0 <= i < |ts| ==> ts[i] == ScalarArg(types[i])
  {
    seq(|types|, i requires 0 <= i < |types| => ScalarArg(types[i]))
  }

  /** The arguments a pack covers. */
  function PackArgs(p: Pack): (ts: seq<ArgType>)
  {
    match p
    case ScalarPack(types) => ScalarArgs(types)
    case ArrayPack(e, n) => [ArrayArg(e, n)]
    case VectorPack(e) => [VectorArg(e)]
    case StringPack => [StringArg]
  }

  function Flatten(packs: seq<Pack>): (ts: seq<ArgType>)
  {
    if packs == [] then [] else PackArgs(packs[0]) + Flatten(packs[1..])
  }

  /** Scalar packs are as long as they can be: never empty, never next to each other. */
  predicate Maximal(packs: seq<Pack>)
  {
    && (forall i :: 0 <= i < |packs| ==> packs[i].ScalarPack? ==> packs[i].types != [])
    && (forall i :: 0 <= i < |packs| - 1 ==> !(packs[i].ScalarPack? && packs[i + 1].ScalarPack?))
  }

  predicate HasVector(ts: seq<ArgType>)
  {
    exists i :: 0 <= i < |ts| && (ts[i].VectorArg? || ts[i].StringArg?)
  }

  lemma {:induction false} FlattenAppends(packs: seq<Pack>, more: seq<Pack>)
    ensures Flatten(packs + more) == Flatten(packs) + Flatten(more)
    decreases |packs|
  {
    if packs == [] {
      assert packs + more == more;
    } else {
      assert (packs + more)[1..] == packs[1..] + more;
      FlattenAppends(packs[1..], more);
    }
  }

  lemma FlattenOne(p: Pack)
    ensures Flatten([p]) == PackArgs(p)
  {
    assert Flatten([p][1..]) == [];
  }

  /** Close the pending scalars, if any, then add a pack of another family. */
  method Flush(packs: seq<Pack>, pending: seq<Scalar>) returns (r: seq<Pack>)
    requires Open(packs)
    ensures Maximal(r) && (pending == [] ==> r == packs)
    ensures Flatten(r) == Flatten(packs) + ScalarArgs(pending)
  {
    if |pending| > 0 {
      r := packs + [ScalarPack(pending)];
      FlattenAppends(packs, [ScalarPack(pending)]);
      FlattenOne(ScalarPack(pending));
    } else {
      r := packs;
    }
  }

  method BuildArgsPacks(ts: seq<ArgType>) returns (packs: seq<Pack>, hasVector: bool)
    ensures Flatten(packs) == ts && Maximal(packs)
    ensures hasVector <==> HasVector(ts)
  {
    hide Maximal, Flatten, HasVector;
    packs, hasVector := [], false;
    var pending: seq<Scalar> := [];
    NothingPacked();
    for i := 0 to |ts|
      invariant Open(packs)
      invariant Flatten(packs) + ScalarArgs(pending) == ts[..i]
      invariant hasVector <==> HasVector(ts[..i])
    {
      assert ts[..i + 1] == ts[..i] + [ts[i]];
      HasVectorAppends(ts[..i], ts[i]);
      match ts[i] {
        case ScalarArg(s) =>
          assert ScalarArgs(pending + [s]) == ScalarArgs(pending) + [ts[i]];
          pending := pending + [s];
        case ArrayArg(e, n) =>
          packs := Flush(packs, pending);
          packs := AddPack(packs, ArrayPack(e, n));
          pending := [];
        case VectorArg(e) =>
          hasVector := true;
          packs := Flush(packs, pending);
          packs := AddPack(packs, VectorPack(e));
          pending := [];
        case StringArg =>
          hasVector := true;
          packs := Flush(packs, pending);
          packs := AddPack(packs, StringPack);
          pending := [];
      }
    }
    packs := Flush(packs, pending);
    assert ts[..|ts|] == ts;
  }

  /** A packing that another scalar pack may follow. */
  predicate Open(packs: seq<Pack>)
  {
    Maximal(packs) && (packs != [] ==> !packs[|packs| - 1].ScalarPack?)
  }

  lemma NothingPacked()
    ensures Open([]) && Flatten([]) == [] && ScalarArgs([]) == [] && !HasVector([])
  {
  }

  method AddPack(packs: seq<Pack>, p: Pack) returns (r: seq<Pack>)
    requires Maximal(packs) && !p.ScalarPack?
    ensures r == packs + [p] && Open(r) && Flatten(r) == Flatten(packs) + PackArgs(p)
  {
    r := packs + [p];
    FlattenAppends(packs, [p]);
    FlattenOne(p);
  }

  lemma HasVectorAppends(ts: seq<ArgType>, t: ArgType)
    ensures HasVector(ts + [t]) <==> HasVector(ts) || t.VectorArg? || t.StringArg?
  {
    if HasVector(ts) {
      var i :| 0 <= i < |ts| && (ts[i].VectorArg? || ts[i].StringArg?);
      assert (ts + [t])[i] == ts[i];
    } else if t.VectorArg? || t.StringArg? {
      assert (ts + [t])[|ts|] == t;
    }
  }

  /** There is only one way to pack a signature maximally. */
  lemma {:induction false} PackingIsUnique(p: seq<Pack>, q: seq<Pack>)
    requires Maximal(p) && Maximal(q) && Flatten(p) == Flatten(q)
    ensures p == q
    decreases |p|
  {
    if p == [] {
      FlattenNonEmpty(q);
    } else {
      FlattenNonEmpty(p);
      assert q != [];
      FirstPackAgrees(p, q);
      FirstPackAgrees(q, p);
      assert PackArgs(p[0]) == PackArgs(q[0]);
      assert Flatten(p[1..]) == Flatten(p)[|PackArgs(p[0])|..];
      assert Flatten(q[1..]) == Flatten(q)[|PackArgs(q[0])|..];
      PackingIsUnique(p[1..], q[1..]);
      SamePack(p[0], q[0]);
    }
  }

  lemma FlattenNonEmpty(p: seq<Pack>)
    requires Maximal(p)
    ensures p == [] <==> Flatten(p) == []
  {
    if p != [] {
      assert |PackArgs(p[0])| > 0;
    }
  }

  lemma SamePack(p: Pack, q: Pack)
    requires PackArgs(p) == PackArgs(q) && PackArgs(p) != []
    ensures p == q
  {
    assert PackArgs(p)[0] == PackArgs(q)[0];
    if p.ScalarPack? {
      forall i | 0 <= i < |p.types|
        ensures p.types[i] == q.types[i]
      {
        assert PackArgs(p)[i] == PackArgs(q)[i];
      }
      assert p.types == q.types;
    }
  }

  /** A maximal scalar pack is followed by something that is not a scalar. */
  lemma ScalarPackEnds(q: seq<Pack>)
    requires Maximal(q) && q != [] && q[0].ScalarPack? && |q[0].types| < |Flatten(q)|
    ensures !Flatten(q)[|q[0].types|].ScalarArg?
  {
    var rest := q[1..];
    assert Flatten(q)[|q[0].types|] == Flatten(rest)[0];
    assert rest[0] == q[1] && !q[1].ScalarPack?;
  }

  /** The first pack of one packing is a prefix of the first pack of the other. */
  lemma FirstPackAgrees(p: seq<Pack>, q: seq<Pack>)
    requires Maximal(p) && Maximal(q) && Flatten(p) == Flatten(q) && p != [] && q != []
    ensures PackArgs(p[0]) <= PackArgs(q[0])
  {
    hide Maximal;
    var ts, m, n := Flatten(p), |PackArgs(p[0])|, |PackArgs(q[0])|;
    PackIsPrefix(p);
    PackIsPrefix(q);
    if n < m {
      assert p[0].ScalarPack?;
      assert ts[0].ScalarArg? && ts[n].ScalarArg?;
      ScalarPackEnds(q);
    }
  }

  lemma PackIsPrefix(p: seq<Pack>)
    requires Maximal(p) && p != []
    ensures 0 < |PackArgs(p[0])| <= |Flatten(p)| && PackArgs(p[0]) == Flatten(p)[..|PackArgs(p[0])|]
    ensures p[0].ScalarPack? <==> Flatten(p)[0].ScalarArg?
    ensures forall i :: 0 <= i < |PackArgs(p[0])| ==> Flatten(p)[i] == PackArgs(p[0])[i]
  {
  }

  // ------------------------------------------------------------------
  // Buffer sizes
  // ------------------------------------------------------------------

  /** required_buffer_size<Tp...>() */
  function RequiredBufferSize(types: seq<Scalar>): (n: nat)
  {
    if types == [] then 0 else types[0].Size() + RequiredBufferSize(types[1..])
  }

  /** The emitted req_buff_size: one term for each scalar pack and each array. */
  method RequiredBuffSize(packs: seq<Pack>) returns (n: nat)
    ensures !HasVector(Flatten(packs)) ==>
              forall vs :: AllMatch(Flatten(packs), vs) ==> |EncodeArgs(Flatten(packs), vs)| == n
  {
    n := 0;
    for i := 0 to |packs|
      invariant n == FixedSize(Flatten(packs[..i]))
    {
      FlattenAppends(packs[..i], [packs[i]]);
      FlattenOne(packs[i]);
      assert packs[..i] + [packs[i]] == packs[..i + 1];
      FixedSizeAppends(Flatten(packs[..i]), PackArgs(packs[i]));
      FixedSizeOfPack(packs[i]);
      match packs[i] {
        case ScalarPack(types) => n := n + RequiredBufferSize(types);
        case ArrayPack(e, k) => n := n + e.Size() * k;
        case VectorPack(_) =>
        case StringPack =>
      }
    }
    assert packs[..|packs|] == packs;
    if !HasVector(Flatten(packs)) {
      forall vs | AllMatch(Flatten(packs), vs)
        ensures |EncodeArgs(Flatten(packs), vs)| == n
      {
        FixedSizeIsEncodedSize(Flatten(packs), vs);
      }
    }
  }

  /** The octets that do not depend on the values. */
  function FixedSize(ts: seq<ArgType>): (n: nat)
  {
    if ts == [] then 0
    else (match ts[0]
          case ScalarArg(s) => s.Size()
          case ArrayArg(e, n) => e.Size() * n
          case _ => 0) + FixedSize(ts[1..])
  }

  lemma {:induction false} FixedSizeAppends(ts: seq<ArgType>, us: seq<ArgType>)
    ensures FixedSize(ts + us) == FixedSize(ts) + FixedSize(us)
    decreases |ts|
  {
    if ts == [] {
      assert ts + us == us;
    } else {
      assert (ts + us)[1..] == ts[1..] + us;
      FixedSizeAppends(ts[1..], us);
    }
  }

  lemma {:induction false} FixedSizeOfScalars(types: seq<Scalar>)
    ensures FixedSize(ScalarArgs(types)) == RequiredBufferSize(types)
    decreases |types|
  {
    if types != [] {
      assert ScalarArgs(types)[1..] == ScalarArgs(types[1..]);
      FixedSizeOfScalars(types[1..]);
    }
  }

  lemma FixedSizeOfPack(p: Pack)
    ensures FixedSize(PackArgs(p)) == match p
                                      case ScalarPack(types) => RequiredBufferSize(types)
                                      case ArrayPack(e, n) => e.Size() * n
                                      case _ => 0
  {
    if p.ScalarPack? {
      FixedSizeOfScalars(p.types);
    } else {
      assert FixedSize(PackArgs(p)[1..]) == 0;
    }
  }

  lemma {:induction false} FixedSizeIsEncodedSize(ts: seq<ArgType>, vs: seq<Value>)
    requires AllMatch(ts, vs) && !HasVector(ts)
    ensures |EncodeArgs(ts, vs)| == FixedSize(ts)
    decreases |ts|
  {
    hide BigEndian, EncodeItems, Matches;
    if ts != [] {
      assert forall i :: 0 <= i < |ts[1..]| ==> ts[1..][i] == ts[i + 1];
      FixedSizeIsEncodedSize(ts[1..], vs[1..]);
      OneFixedSize(ts[0], vs[0]);
    }
  }

  lemma OneFixedSize(t: ArgType, v: Value)
    requires Matches(t, v) && (t.ScalarArg? || t.ArrayArg?)
    ensures |EncodeArg(t, v)| == if t.ScalarArg? then t.scalar.Size() else t.elem.Size() * t.n
  {
    hide BigEndian, EncodeItems;
  }

  // ------------------------------------------------------------------
  // Extraction of a scalar pack
  // ------------------------------------------------------------------

  function Word16(b0: int, b1: int): int { b1 + b0 * 0x100 }

  function Word32(b0: int, b1: int, b2: int, b3: int): int { b3 + b2 * 0x100 + b1 * 0x1_0000 + b0 * 0x100_0000 }

  /** extract<uintN_t>: octets added up with shifts; 64 bits from two 32-bit halves. */
  function ExtractWord(s: seq<Byte>): (n: nat)
    requires |s| == 1 || |s| == 2 || |s| == 4 || |s| == 8
    ensures n == BigEndianValue(s)
  {
    if |s| == 1 then s[0]
    else if |s| == 2 then BigEndianConcat(s[..1], s[1..]); assert s == s[..1] + s[1..]; Word16(s[0], s[1])
    else if |s| == 4 then ExtractHalf(s); Word32(s[0], s[1], s[2], s[3])
    else
      ExtractHalf(s[..4]);
      ExtractHalf(s[4..]);
      Sizes();
      BigEndianConcat(s[..4], s[4..]);
      assert s == s[..4] + s[4..];
      Word32(s[4], s[5], s[6], s[7]) + Word32(s[0], s[1], s[2], s[3]) * U32_LIMIT
  }

  lemma ExtractHalf(s: seq<Byte>)
    requires |s| == 4
    ensures BigEndianValue(s) == Word32(s[0], s[1], s[2], s[3])
  {
    BigEndianAppend(s[..3], s[3]);
    BigEndianAppend(s[..2], s[2]);
    BigEndianAppend(s[..1], s[1]);
    assert s == s[..3] + [s[3]] && s[..3] == s[..2] + [s[2]] && s[..2] == s[..1] + [s[1]];
    assert BigEndianValue(s[..1]) == s[0] by { BigEndianAppend([], s[0]); assert s[..1] == [] + [s[0]]; }
  }
}

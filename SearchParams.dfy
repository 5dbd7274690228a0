/**
 * The parts of WHATWG `URLSearchParams` that the proxy signature check uses:
 * parsing a query, `get`, `delete`, sorting the entries by name with a
 * comparator (a stable sort, as `Array.prototype.sort` is), and `toString`.
 * Percent-decoding and percent-encoding are parameters of the model.
 */
module SearchParams {
  import opened Wrappers
  import opened Strings

  /** One name/value entry of a query. */
  datatype Param = Param(name: string, value: string)

  /**
   * The application/x-www-form-urlencoded byte codec: `decode` undoes `+` and
   * percent-escapes, `encode` produces them.
   */
  datatype Codec = Codec(decode: string -> string, encode: string -> string)

  /** What the real codec guarantees: encoding is undone by decoding and never emits `&` or `=`. */
  ghost predicate RoundTrips(codec: Codec)
  {
    forall s :: codec.decode(codec.encode(s)) == s && '&' !in codec.encode(s) && '=' !in codec.encode(s)
  }

  // ---------------------------------------------------------------- parsing

  /** One non-empty `&`-separated piece: the name before the first `=`, the value after it. */
  function ParsePair(piece: string, codec: Codec): Param
  {
    Param(codec.decode(Before(piece, '=')), codec.decode(After(piece, '=')))
  }

  function ParsePieces(pieces: seq<string>, codec: Codec): (r: seq<Param>)
    ensures |r| <= |pieces|
  {
    if pieces == [] then []
    else (if pieces[0] == "" then [] else [ParsePair(pieces[0], codec)]) + ParsePieces(pieces[1..], codec)
  }

  /** `new URLSearchParams(query)` for a query without a leading `?`: empty pieces are skipped. */
  function Parse(query: string, codec: Codec): (r: seq<Param>)
    ensures |r| <= |Split(query, '&')|
    ensures query == "" ==> r == []
  {
    ParsePieces(Split(query, '&'), codec)
  }

  // ---------------------------------------------------------- serialising

  function SerializePairs(ps: seq<Param>, codec: Codec): (r: seq<string>)
    ensures |r| == |ps|
    ensures forall i :: 0 <= i < |ps| ==> r[i] == codec.encode(ps[i].name) + "=" + codec.encode(ps[i].value)
  {
    if ps == [] then []
    else [codec.encode(ps[0].name) + "=" + codec.encode(ps[0].value)] + SerializePairs(ps[1..], codec)
  }

  /** `URLSearchParams.prototype.toString`: `name=value` pieces joined by `&`. */
  function Serialize(ps: seq<Param>, codec: Codec): (r: string)
    ensures r == "" <==> ps == []
  {
    Join(SerializePairs(ps, codec), '&')
  }

  lemma {:induction false} ParsePiecesOfSerialized(ps: seq<Param>, codec: Codec)
    requires RoundTrips(codec)
    ensures ParsePieces(SerializePairs(ps, codec), codec) == ps
  {
    if ps != [] {
      var n, v := codec.encode(ps[0].name), codec.encode(ps[0].value);
      var piece := n + "=" + v;
      assert piece == n + ['='] + v;
      SplitAtFirst(n, v, '=');
      assert SerializePairs(ps, codec)[1..] == SerializePairs(ps[1..], codec);
      ParsePiecesOfSerialized(ps[1..], codec);
    }
  }

  /** Parsing a serialised query gives back its entries, in order. */
  lemma ParseSerialize(ps: seq<Param>, codec: Codec)
    requires RoundTrips(codec)
    ensures Parse(Serialize(ps, codec), codec) == ps
  {
    var parts := SerializePairs(ps, codec);
    if ps == [] {
      assert Split("", '&') == [""];
    } else {
      forall p | p in parts ensures '&' !in p {
        var i :| 0 <= i < |parts| && parts[i] == p;
        var n, v := codec.encode(ps[i].name), codec.encode(ps[i].value);
        assert p == n + "=" + v;
      }
      SplitJoin(parts, '&');
      ParsePiecesOfSerialized(ps, codec);
    }
  }

  // ----------------------------------------------------- get and delete

  /** The entries named `name`, in order. */
  function WithName(ps: seq<Param>, name: string): seq<Param>
  {
    if ps == [] then []
    else (if ps[0].name == name then [ps[0]] else []) + WithName(ps[1..], name)
  }

  /** `params.get(name)`: the value of the first entry named `name`, if any. */
  function Get(ps: seq<Param>, name: string): (r: Option<string>)
    ensures r.None? <==> WithName(ps, name) == []
    ensures r.Some? ==> r.value == WithName(ps, name)[0].value
    ensures r.Some? ==> Param(name, r.value) in ps
  {
    if ps == [] then None
    else if ps[0].name == name then Some(ps[0].value)
    else Get(ps[1..], name)
  }

  /** `params.delete(name)`: every entry named `name` is removed, the others keep their order. */
  function Delete(ps: seq<Param>, name: string): (r: seq<Param>)
    ensures forall p :: p in r ==> p in ps && p.name != name
    ensures forall p :: p in ps && p.name != name ==> p in r
  {
    if ps == [] then []
    else (if ps[0].name == name then [] else [ps[0]]) + Delete(ps[1..], name)
  }

  /** The first entry named `name` in `a + b` is the first one in `a`, if `a` has one. */
  lemma {:induction false} GetConcat(a: seq<Param>, b: seq<Param>, name: string)
    ensures Get(a + b, name) == if Get(a, name).Some? then Get(a, name) else Get(b, name)
  {
    if a == [] {
      assert a + b == b;
    } else {
      assert (a + b)[0] == a[0];
      assert (a + b)[1..] == a[1..] + b;
      GetConcat(a[1..], b, name);
    }
  }

  lemma {:induction false} DeleteConcat(a: seq<Param>, b: seq<Param>, name: string)
    ensures Delete(a + b, name) == Delete(a, name) + Delete(b, name)
  {
    if a == [] {
      assert a + b == b;
    } else {
      assert (a + b)[0] == a[0];
      assert (a + b)[1..] == a[1..] + b;
      DeleteConcat(a[1..], b, name);
    }
  }

  /** After deleting `name`, the entries under any other name are exactly as before. */
  lemma {:induction false} WithNameAfterDelete(ps: seq<Param>, deleted: string, name: string)
    ensures WithName(Delete(ps, deleted), name) == if name == deleted then [] else WithName(ps, name)
  {
    if ps != [] {
      WithNameAfterDelete(ps[1..], deleted, name);
      var head := if ps[0].name == deleted then [] else [ps[0]];
      WithNameConcat(head, Delete(ps[1..], deleted), name);
    }
  }

  lemma {:induction false} WithNameConcat(a: seq<Param>, b: seq<Param>, name: string)
    ensures WithName(a + b, name) == WithName(a, name) + WithName(b, name)
  {
    if a == [] {
      assert a + b == b;
    } else {
      var head := if a[0].name == name then [a[0]] else [];
      calc {
        WithName(a + b, name);
        { assert (a + b)[0] == a[0]; assert (a + b)[1..] == a[1..] + b; }
        head + WithName(a[1..] + b, name);
        { WithNameConcat(a[1..], b, name); }
        head + (WithName(a[1..], name) + WithName(b, name));
        (head + WithName(a[1..], name)) + WithName(b, name);
      }
    }
  }

  // --------------------------------------------------------------- sorting

  /** The comparator `(a, b) => a[0].localeCompare(b[0])`, read as "a sorts no later than b". */
  ghost predicate TotalOrder(leq: (string, string) -> bool)
  {
    Total(leq) && Antisymmetric(leq) && Transitive(leq)
  }

  ghost predicate Total(leq: (string, string) -> bool)
  {
    forall a, b :: leq(a, b) || leq(b, a)
  }

  ghost predicate Antisymmetric(leq: (string, string) -> bool)
  {
    forall a, b :: leq(a, b) && leq(b, a) ==> a == b
  }

  ghost predicate Transitive(leq: (string, string) -> bool)
  {
    forall a, b, c :: leq(a, b) && leq(b, c) ==> leq(a, c)
  }

  ghost predicate SortedByName(ps: seq<Param>, leq: (string, string) -> bool)
  {
    forall i, j :: 0 <= i < j < |ps| ==> leq(ps[i].name, ps[j].name)
  }

  /** Inserts `p` before the first entry whose name does not sort strictly before `p`'s name. */
  function Insert(p: Param, ps: seq<Param>, leq: (string, string) -> bool): (r: seq<Param>)
    ensures multiset(r) == multiset(ps) + multiset{p}
  {
    if ps == [] || leq(p.name, ps[0].name) then [p] + ps
    else
      assert ps == [ps[0]] + ps[1..];
      [ps[0]] + Insert(p, ps[1..], leq)
  }

  /** `Array.from(params.entries()).sort(cmp)`: a stable sort by name. */
  function SortByName(ps: seq<Param>, leq: (string, string) -> bool): (r: seq<Param>)
    ensures multiset(r) == multiset(ps)
  {
    if ps == [] then []
    else
      assert ps == [ps[0]] + ps[1..];
      Insert(ps[0], SortByName(ps[1..], leq), leq)
  }

  lemma {:induction false} InsertSorted(p: Param, ps: seq<Param>, leq: (string, string) -> bool)
    requires Total(leq) && Transitive(leq)
    requires SortedByName(ps, leq)
    ensures SortedByName(Insert(p, ps, leq), leq)
  {
    if ps == [] || leq(p.name, ps[0].name) {
      var r := [p] + ps;
      forall i, j | 0 <= i < j < |r| ensures leq(r[i].name, r[j].name) {
        if i == 0 && j > 1 {
          assert leq(ps[0].name, ps[j - 1].name);
        }
      }
    } else {
      InsertSorted(p, ps[1..], leq);
      var tail := Insert(p, ps[1..], leq);
      var r := [ps[0]] + tail;
      forall j | 0 <= j < |tail| ensures leq(ps[0].name, tail[j].name) {
        assert tail[j] in multiset(tail);
        if tail[j] != p {
          assert tail[j] in multiset(ps[1..]);
          var k :| 0 <= k < |ps[1..]| && ps[1..][k] == tail[j];
          assert ps[k + 1] == tail[j];
        }
      }
      forall i, j | 0 <= i < j < |r| ensures leq(r[i].name, r[j].name) {
        if i > 0 {
          assert r[i] == tail[i - 1] && r[j] == tail[j - 1];
        }
      }
    }
  }

  /** The sorted entries are in ascending name order. */
  lemma {:induction false} SortSorted(ps: seq<Param>, leq: (string, string) -> bool)
    requires Total(leq) && Transitive(leq)
    ensures SortedByName(SortByName(ps, leq), leq)
  {
    if ps != [] {
      SortSorted(ps[1..], leq);
      InsertSorted(ps[0], SortByName(ps[1..], leq), leq);
    }
  }

  lemma {:induction false} WithNameInsert(p: Param, ps: seq<Param>, leq: (string, string) -> bool, name: string)
    requires Total(leq)
    ensures WithName(Insert(p, ps, leq), name)
         == (if p.name == name then [p] else []) + WithName(ps, name)
  {
    var r := Insert(p, ps, leq);
    if ps == [] || leq(p.name, ps[0].name) {
      assert r == [p] + ps;
      assert r[0] == p && r[1..] == ps;
    } else {
      var tail := Insert(p, ps[1..], leq);
      assert r == [ps[0]] + tail;
      assert r[0] == ps[0] && r[1..] == tail;
      assert ps[0].name != p.name;
      WithNameInsert(p, ps[1..], leq, name);
      var first := if ps[0].name == name then [ps[0]] else [];
      var own := if p.name == name then [p] else [];
      var w := WithName(ps[1..], name);
      assert [] + w == w;
      calc {
        WithName(r, name);
        first + WithName(tail, name);
        first + (own + w);
        { if p.name == name { assert first == []; } else { assert own == []; } }
        own + (first + w);
        own + WithName(ps, name);
      }
    }
  }

  /** The sort is stable: the entries under each name keep their relative order. */
  lemma {:induction false} SortStable(ps: seq<Param>, leq: (string, string) -> bool, name: string)
    requires Total(leq)
    ensures WithName(SortByName(ps, leq), name) == WithName(ps, name)
  {
    if ps != [] {
      SortStable(ps[1..], leq, name);
      WithNameInsert(ps[0], SortByName(ps[1..], leq), leq, name);
    }
  }

  lemma {:induction false} WithNameHasEntry(ps: seq<Param>, name: string)
    requires WithName(ps, name) != []
    ensures exists k :: 0 <= k < |ps| && ps[k].name == name
  {
    if ps[0].name != name {
      WithNameHasEntry(ps[1..], name);
      var k :| 0 <= k < |ps[1..]| && ps[1..][k].name == name;
      assert ps[k + 1].name == name;
    }
  }

  lemma HeadHasOwnName(s: seq<Param>)
    requires s != []
    ensures WithName(s, s[0].name) != []
  {
  }

  /** Two sorted sequences that agree per name start with the same entry. */
  lemma SortedHeadsAgree(a: seq<Param>, b: seq<Param>, leq: (string, string) -> bool)
    requires Antisymmetric(leq)
    requires a != [] && b != []
    requires SortedByName(a, leq) && SortedByName(b, leq)
    requires WithName(a, a[0].name) == WithName(b, a[0].name)
    requires WithName(a, b[0].name) == WithName(b, b[0].name)
    ensures a[0] == b[0]
  {
    var na, nb := a[0].name, b[0].name;
    if na != nb {
      assert WithName(b, nb) != [];
      WithNameHasEntry(a, nb);
      var ka :| 0 <= ka < |a| && a[ka].name == nb;
      assert leq(na, nb);
      assert WithName(a, na) != [];
      WithNameHasEntry(b, na);
    }
    assert WithName(a, na) == [a[0]] + WithName(a[1..], na);
    assert WithName(b, na) == [b[0]] + WithName(b[1..], na);
    assert a[0] == WithName(a, na)[0] == WithName(b, na)[0] == b[0];
  }

  /**
   * A sorted sequence is determined by its per-name subsequences: two sorted
   * sequences that agree on the entries under every name are equal.
   */
  lemma {:induction false} SortedUnique(a: seq<Param>, b: seq<Param>, leq: (string, string) -> bool)
    requires Antisymmetric(leq)
    requires SortedByName(a, leq) && SortedByName(b, leq)
    requires forall name :: WithName(a, name) == WithName(b, name)
    ensures a == b
    decreases |a|
  {
    if a == [] && b != [] {
      HeadHasOwnName(b);
      assert false;
    } else if a != [] && b == [] {
      HeadHasOwnName(a);
      assert false;
    } else if a != [] {
      SortedHeadsAgree(a, b, leq);
      forall name ensures WithName(a[1..], name) == WithName(b[1..], name) {
        var head := if a[0].name == name then [a[0]] else [];
        assert WithName(a, name) == head + WithName(a[1..], name);
        assert WithName(b, name) == head + WithName(b[1..], name);
        assert WithName(a[1..], name) == WithName(a, name)[|head|..];
        assert WithName(b[1..], name) == WithName(b, name)[|head|..];
      }
      SortedUnique(a[1..], b[1..], leq);
      assert a == [a[0]] + a[1..];
      assert b == [b[0]] + b[1..];
    }
  }
}

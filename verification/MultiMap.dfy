/** Maps whose values are sets, read the way a C++ `operator[]` reads them: a missing
    key stands for the empty set. */
module MultiMap {

  function Get<K, V>(m: map<K, set<V>>, k: K): set<V> {
    if k in m then m[k] else {}
  }

  ghost function Elements<T>(s: seq<T>): set<T> {
    set x | x in s
  }

  /** One element of a loop over a set. */
  lemma MoveOver<T>(all: set<T>, done: set<T>, x: T)
    requires done <= all && x in all - done
    ensures done + {x} <= all && (all - done) - {x} == all - (done + {x})
  {
  }

  /** `m[k].insert(v)` */
  function Insert<K(!new), V>(m: map<K, set<V>>, k: K, v: V): (r: map<K, set<V>>)
    ensures forall j :: Get(r, j) == if j == k then Get(m, k) + {v} else Get(m, j)
  {
    m[k := Get(m, k) + {v}]
  }

  lemma PutRow<K(!new), V>(m: map<K, set<V>>, k: K, row: set<V>)
    ensures forall j {:trigger Get(m[k := row], j)} :: Get(m[k := row], j) == if j == k then row else Get(m, j)
  {
  }

  /** `for (auto &p : m) p.second.erase(v)` */
  method EraseFromAll<K(!new), V(!new)>(m: map<K, set<V>>, v: V) returns (r: map<K, set<V>>)
    ensures r.Keys == m.Keys
    ensures forall k :: Get(r, k) == Get(m, k) - {v}
  {
    r := m;
    var todo := m.Keys;
    while todo != {}
      invariant todo <= m.Keys == r.Keys
      invariant forall k, w {:trigger w in Get(r, k)} :: w in Get(r, k) <==> w in Get(m, k) && (w != v || k in todo)
      decreases |todo|
    {
      var k :| k in todo;
      todo := todo - {k};
      assert Get(r, k) == r[k];
      PutRow(r, k, r[k] - {v});
      r := r[k := r[k] - {v}];
    }
  }

  /** `for (auto &p : src) dst[p.first].insert(p.second.begin(), p.second.end())` */
  method InsertAll<K(!new), V(!new)>(dst: map<K, set<V>>, src: map<K, set<V>>) returns (r: map<K, set<V>>)
    ensures forall k {:trigger Get(r, k)} :: Get(r, k) == Get(dst, k) + Get(src, k)
  {
    r := dst;
    var todo := src.Keys;
    while todo != {}
      invariant todo <= src.Keys
      invariant InsertedBut(dst, src, todo, r)
      decreases |todo|
    {
      var k :| k in todo;
      InsertedOneMore(dst, src, todo, r, k);
      todo := todo - {k};
      r := r[k := Get(r, k) + src[k]];
    }
  }

  /** The rows of `src`, but for those of `todo`, have been inserted. */
  ghost predicate InsertedBut<K(!new), V(!new)>(dst: map<K, set<V>>, src: map<K, set<V>>, todo: set<K>, r: map<K, set<V>>) {
    forall k, v {:trigger v in Get(r, k)} :: v in Get(r, k) <==> v in Get(dst, k) || (v in Get(src, k) && k !in todo)
  }

  lemma InsertedOneMore<K(!new), V(!new)>(dst: map<K, set<V>>, src: map<K, set<V>>, todo: set<K>, r: map<K, set<V>>, k: K)
    requires InsertedBut(dst, src, todo, r) && k in src && k in todo
    ensures InsertedBut(dst, src, todo - {k}, r[k := Get(r, k) + src[k]])
  {
    PutRow(r, k, Get(r, k) + src[k]);
    assert Get(src, k) == src[k];
    hide Get;
  }

  function Get2<A, N, V>(m: map<A, map<N, set<V>>>, a: A, n: N): set<V> {
    if a in m then Get(m[a], n) else {}
  }

  /** `for (auto &p : src) for (auto &q : p.second) dst[p.first][q.first].insert(q.second.begin(), q.second.end())` */
  method InsertAll2<A(!new), N(!new), V(!new)>(dst: map<A, map<N, set<V>>>, src: map<A, map<N, set<V>>>)
    returns (r: map<A, map<N, set<V>>>)
    ensures forall a, n {:trigger Get2(r, a, n)} :: Get2(r, a, n) == Get2(dst, a, n) + Get2(src, a, n)
  {
    r := dst;
    var todo := src.Keys;
    while todo != {}
      invariant todo <= src.Keys
      invariant forall a, n {:trigger Get2(r, a, n)} ::
                  Get2(r, a, n) == if a in src && a !in todo then Get2(dst, a, n) + Get2(src, a, n) else Get2(dst, a, n)
      decreases |todo|
    {
      var a :| a in todo;
      todo := todo - {a};
      var row := InsertAll(if a in r then r[a] else map[], src[a]);
      ghost var before := r;
      r := r[a := row];
      forall b, n ensures Get2(r, b, n) == if b == a then Get2(before, a, n) + Get2(src, a, n) else Get2(before, b, n) {
      }
    }
  }
}

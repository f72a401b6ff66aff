/** Shared vocabulary: fixed-width integers, the Option/Result wrappers that
    stand for Python's None and exceptions, and order-preserving
    de-duplication of a list (the first-insertion order of a dict or set). */
module Base {

  type byte = x: int | 0 <= x < 0x100
  type u32 = x: int | 0 <= x < 0x1_0000_0000

  /** Euclidean division is determined by its defining equation. */
  lemma DivModUnique(x: int, d: int, q: int, r: int)
    requires d > 0 && 0 <= r < d && x == q * d + r
    ensures x / d == q && x % d == r
  {
    var e := q - x / d;
    assert e * d == x % d - r;
    MulSign(e, d);
    MulSign(-e, d);
    assert (-e) * d == -(e * d);
  }

  /** Two distinct multiples of `d` lie at least one step apart. */
  lemma QuotientOfMultiples(a: int, b: int, d: int)
    requires d > 0 && a % d == 0 && b % d == 0 && a < b
    ensures (b - a) / d >= 1
  {
    DivModUnique(b - a, d, b / d - a / d, 0);
    MulSign(b / d - a / d, d);
  }

  /** The sign facts about a product that the solver does not find alone. */
  lemma MulSign(x: int, d: int)
    requires d > 0
    ensures x <= 0 ==> x * d <= 0
    ensures x >= 1 ==> x * d >= d
  {
    if x >= 1 {
      assert x * d == (x - 1) * d + d;
      assert (x - 1) * d >= 0;
    } else {
      assert x * d == -((-x) * d);
    }
  }

  datatype Option<T> = None | Some(value: T)

  /** The exceptions the modelled code can raise. */
  datatype Error =
    | NoMetric(metric: string)              // info(): no cf:INFO cell for the metric
    | StopIteration                         // update_many(): next() on the iterator of an empty archive list
    | UnboundLocal(name: string)            // fetch(): the loop variable of an empty archive list is never bound
    | EmptyArchiveList                      // create(): max() of an empty list
    | InvalidInterval(fromTime: int, untilTime: int)
    | IndexError                            // a list index out of range
    | KeyError(key: string)                 // a dict lookup of a missing key
    | TypeError                             // subscripting a value that is not a container
    | ZeroDivision                          // an integer division by zero
    | PackError                             // struct.pack of a value outside its field

  datatype Result<T> = Ok(value: T) | Err(error: Error)

  predicate Distinct<T(==,!new)>(s: seq<T>) {
    forall i, j :: 0 <= i < j < |s| ==> s[i] != s[j]
  }

  /** `s` with every element that already occurred earlier removed: the
      keys of a dict or set built from `s`, in first-insertion order. */
  function Dedup<T(==,!new)>(s: seq<T>): (r: seq<T>)
    ensures forall x :: x in r <==> x in s
    ensures Distinct(r)
    ensures |r| <= |s|
  {
    if |s| == 0 then []
    else
      var d := Dedup(s[..|s| - 1]);
      if s[|s| - 1] in d then d else d + [s[|s| - 1]]
  }

  /** The result lists elements in the order of their first occurrence:
      de-duplicating any prefix of `s` gives a prefix of the result. */
  lemma {:induction false} DedupPrefix<T(!new)>(s: seq<T>, i: nat)
    requires i <= |s|
    ensures Dedup(s[..i]) <= Dedup(s)
    decreases |s| - i
  {
    if i < |s| {
      DedupPrefix(s, i + 1);
      assert s[..i + 1][..i] == s[..i];
    } else {
      assert s[..i] == s;
    }
  }

  /** An element's position in the result is fixed by the prefix of `s`
      before its first occurrence. */
  lemma DedupFirstOccurrence<T(!new)>(s: seq<T>, i: nat)
    requires i < |s| && s[i] !in s[..i]
    ensures |Dedup(s[..i])| < |Dedup(s)| && Dedup(s)[|Dedup(s[..i])|] == s[i]
  {
    DedupPrefix(s, i + 1);
    assert s[..i + 1][..i] == s[..i];
    assert s[..i + 1][i] == s[i];
  }

  /** Small facts about concatenation, stated once so that a proof with many
      sequences in scope can use them without re-deriving them. */
  lemma AppendAssociative<T>(a: seq<T>, b: seq<T>, c: seq<T>)
    ensures (a + b) + c == a + (b + c)
  {
  }

  lemma AppendEmpty<T>(s: seq<T>)
    ensures [] + s == s && s + [] == s && s[..|s|] == s
  {
  }

  function Reverse<T>(s: seq<T>): (r: seq<T>)
    ensures |r| == |s|
    ensures forall i :: 0 <= i < |s| ==> r[i] == s[|s| - 1 - i]
  {
    if |s| == 0 then [] else Reverse(s[1..]) + [s[0]]
  }

  /** Python's reading of a list index: negative indices count from the end. */
  function PyIndex(idx: int, len: nat): (r: Option<nat>)
    ensures r.Some? <==> -(len as int) <= idx < len
    ensures r.Some? ==> r.value < len && (r.value == idx || r.value == len + idx)
  {
    if 0 <= idx < len then Some(idx)
    else if -(len as int) <= idx < 0 then Some(len + idx)
    else None
  }

  lemma {:induction false} ReverseReverse<T>(s: seq<T>)
    ensures Reverse(Reverse(s)) == s
  {
    var r := Reverse(s);
    assert forall i :: 0 <= i < |s| ==> Reverse(r)[i] == r[|s| - 1 - i] == s[i];
  }

  /** The keys of a list of (key, value) pairs, in list order. */
  function Firsts<K, V>(pairs: seq<(K, V)>): (r: seq<K>)
    ensures |r| == |pairs|
    ensures forall i :: 0 <= i < |pairs| ==> r[i] == pairs[i].0
  {
    seq(|pairs|, i requires 0 <= i < |pairs| => pairs[i].0)
  }

  /** dict(pairs)[k]: the value of the LAST pair whose key is `k`, or None. */
  function LastValue<K(==), V>(pairs: seq<(K, V)>, k: K): (r: Option<V>)
    ensures r.Some? <==> k in Firsts(pairs)
  {
    if |pairs| == 0 then None
    else if pairs[|pairs| - 1].0 == k then Some(pairs[|pairs| - 1].1)
    else
      assert Firsts(pairs) == Firsts(pairs[..|pairs| - 1]) + [pairs[|pairs| - 1].0];
      LastValue(pairs[..|pairs| - 1], k)
  }

  /** The value a dict keeps for `k` comes from a pair with key `k` that no
      later pair with the same key overrides. */
  lemma {:induction false} LastValueIsLast<K, V>(pairs: seq<(K, V)>, k: K, v: V)
    requires LastValue(pairs, k) == Some(v)
    ensures exists j :: 0 <= j < |pairs| && pairs[j] == (k, v) &&
                        forall j' :: j < j' < |pairs| ==> pairs[j'].0 != k
  {
    var n := |pairs|;
    if pairs[n - 1].0 != k {
      LastValueIsLast(pairs[..n - 1], k, v);
      var init := pairs[..n - 1];
      var j :| 0 <= j < n - 1 && init[j] == (k, v) &&
               forall j' :: j < j' < n - 1 ==> init[j'].0 != k;
      assert pairs[j] == (k, v);
      forall j' | j < j' < n ensures pairs[j'].0 != k {
        if j' < n - 1 {
          assert pairs[j'] == init[j'];
        }
      }
    } else {
      assert pairs[n - 1] == (k, v);
    }
  }

  /** dict(pairs).items(), listed in first-insertion order. */
  function DictItems<K(==,!new), V>(pairs: seq<(K, V)>): (r: seq<(K, V)>)
    ensures Firsts(r) == Dedup(Firsts(pairs))
  {
    var keys := Dedup(Firsts(pairs));
    seq(|keys|, i requires 0 <= i < |keys| => (keys[i], LastValue(pairs, keys[i]).value))
  }
}

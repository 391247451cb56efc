/** Values and array keys as the campaign model sees them in PHP. */
module PhpValues {

  datatype Option<+T> = None | Some(value: T)

  /** An array key. PHP turns integer-like string keys into integers; here every key is kept as
      its decimal text, so the integer 5 and the string "5" are the same key, as in PHP. */
  type Key = string

  /** A submitted property value. `Other` stands for a non-empty array or an object, which the
      model only copies. */
  datatype Value = Null | Bool(b: bool) | Int(i: int) | Str(s: string) | Other(token: nat)

  /** PHP's `empty()`: null, false, 0, "" and "0" are empty. These are exactly the values that
      stand for the array key "" or "0", so an id that passes `!empty` never names either key. */
  predicate IsEmpty(v: Value): (r: bool)
    ensures r <==> KeyOf(v) == Some("") || KeyOf(v) == Some("0")
  {
    match v
    case Null => true
    case Bool(b) => !b
    case Int(i) => i == 0
    case Str(s) => s == "" || s == "0"
    case Other(_) => false
  }

  /** The decimal text of `n`; only 0 is written "0". */
  function Digits(n: nat): (r: string)
    ensures |r| >= 1 && (n >= 10 ==> |r| >= 2)
    ensures r == "0" <==> n == 0
    ensures forall i | 0 <= i < |r| :: r[i] != '-'
    decreases n
  {
    var d := (48 + n % 10) as char;
    if n < 10 then [d] else Digits(n / 10) + [d]
  }

  /** The array key a value stands for when it is used as an offset; `None` for an array or
      object, for which PHP reports an illegal offset and finds nothing. */
  function KeyOf(v: Value): (r: Option<Key>)
    ensures r.None? <==> v.Other?
    ensures v.Int? ==> (r == Some("0") <==> v.i == 0)
    ensures v.Int? && v.i < 0 ==> r.Some? && |r.value| >= 2 && r.value[0] == '-'
    ensures v.Int? && v.i >= 0 ==> '-' !in r.value
  {
    match v
    case Null => Some("")
    case Bool(b) => Some(if b then "1" else "0")
    case Int(i) => Some(if i < 0 then "-" + Digits(-i) else Digits(i))
    case Str(s) => Some(s)
    case Other(_) => None
  }

  /** The keys of an ordered PHP array, given as its list of key/value pairs. */
  function Names<V>(kvs: seq<(string, V)>): set<string>
  {
    set i | 0 <= i < |kvs| :: kvs[i].0
  }

  lemma NamesSnoc<V>(kvs: seq<(string, V)>, k: string, v: V)
    ensures Names(kvs + [(k, v)]) == Names(kvs) + {k}
  {
    var all := kvs + [(k, v)];
    forall x ensures x in Names(all) <==> x in Names(kvs) + {k} {
      if x in Names(all) {
        var i :| 0 <= i < |all| && all[i].0 == x;
        if i < |kvs| {
          assert kvs[i].0 == x;
        }
      }
      if x in Names(kvs) {
        var i :| 0 <= i < |kvs| && kvs[i].0 == x;
        assert all[i].0 == x;
      }
      if x == k {
        assert all[|kvs|].0 == x;
      }
    }
  }

  /** No key occurs twice: what a PHP array guarantees of its own keys. */
  predicate DistinctKeys<K(==), V>(kvs: seq<(K, V)>)
  {
    forall i, j | 0 <= i < j < |kvs| :: kvs[i].0 != kvs[j].0
  }

  /** `$array[$k]` on an ordered array; the later pair wins, as a later assignment does. */
  function Lookup<V>(kvs: seq<(string, V)>, k: string): (r: Option<V>)
    ensures r.Some? <==> k in Names(kvs)
    ensures r.Some? ==> exists i :: 0 <= i < |kvs| && kvs[i] == (k, r.value)
    decreases |kvs|
  {
    if kvs == [] then None
    else if kvs[|kvs| - 1].0 == k then Some(kvs[|kvs| - 1].1)
    else
      var r := Lookup(kvs[..|kvs| - 1], k);
      assert Names(kvs) == Names(kvs[..|kvs| - 1]) + {kvs[|kvs| - 1].0};
      r
  }

  /** `implode($sep, $parts)`. */
  function Join(parts: seq<string>, sep: char): (r: string)
    ensures |parts| > 0 ==> parts[0] <= r
    ensures (forall i | 0 <= i < |parts| :: sep !in parts[i]) ==> (sep in r <==> |parts| > 1)
    decreases |parts|
  {
    if parts == [] then ""
    else if |parts| == 1 then parts[0]
    else parts[0] + [sep] + Join(parts[1..], sep)
  }

  /** The first position of `c` in `s`. */
  function IndexOf(s: string, c: char): (i: nat)
    requires c in s
    ensures i < |s| && s[i] == c && c !in s[..i]
  {
    if s[0] == c then 0 else 1 + IndexOf(s[1..], c)
  }

  /** `explode($sep, $s)`: always at least one part; `explode(',', '')` is `['']`. */
  function Split(s: string, sep: char): (parts: seq<string>)
    ensures |parts| > 0
    ensures forall p | p in parts :: sep !in p
    decreases |s|
  {
    if sep !in s then [s]
    else
      var i := IndexOf(s, sep);
      [s[..i]] + Split(s[i + 1..], sep)
  }

  /** Exploding an imploded list gives the list back, provided it is not empty and no part
      holds the separator. */
  lemma {:induction false} SplitJoin(parts: seq<string>, sep: char)
    requires |parts| > 0
    requires forall p | p in parts :: sep !in p
    ensures Split(Join(parts, sep), sep) == parts
    decreases |parts|
  {
    if |parts| > 1 {
      var s := Join(parts, sep);
      var head := parts[0];
      assert s == head + [sep] + Join(parts[1..], sep);
      assert s[|head|] == sep;
      assert s[..|head|] == head;
      assert head in parts;
      var i := IndexOf(s, sep);
      assert forall j | 0 <= j < |head| :: s[j] == head[j] && s[j] != sep;
      assert forall j | 0 <= j < i :: s[..i][j] == s[j] && s[j] != sep;
      assert i == |head|;
      assert s[..i] == head;
      assert s[i + 1..] == Join(parts[1..], sep);
      SplitJoin(parts[1..], sep);
    }
  }

  /** `sep` occurs in `s` at position `i`. */
  predicate At(s: string, sep: string, i: nat)
  {
    i + |sep| <= |s| && s[i..i + |sep|] == sep
  }

  /** `strpos($s, $sep, $i)`: the first position at or after `i` where `sep` occurs. */
  function Find(s: string, sep: string, i: nat): (r: Option<nat>)
    ensures r.Some? ==> i <= r.value && At(s, sep, r.value) &&
                        forall j | i <= j < r.value :: !At(s, sep, j)
    ensures r.None? ==> forall j | i <= j :: !At(s, sep, j)
    decreases |s| - i
  {
    if i + |sep| > |s| then None
    else if At(s, sep, i) then Some(i)
    else Find(s, sep, i + 1)
  }

  /** `explode($sep, $s)` for a separator of any non-empty length. */
  function Explode(s: string, sep: string): (parts: seq<string>)
    requires |sep| > 0
    ensures |parts| >= 1
    ensures Find(s, sep, 0).Some? ==> |parts| >= 2
    decreases |s|
  {
    match Find(s, sep, 0)
    case None => [s]
    case Some(i) => [s[..i]] + Explode(s[i + |sep|..], sep)
  }

  /** A string with no colon is not split on `::`. */
  lemma ExplodeColonFree(s: string)
    requires ':' !in s
    ensures Explode(s, "::") == [s]
  {
    forall j | 0 <= j ensures !At(s, "::", j) {
      if j + 2 <= |s| {
        assert s[j..j + 2][0] == s[j];
        assert s[j] in s;
      }
    }
    assert Find(s, "::", 0).None?;
  }

  /** Exploding `a::b` on `::` gives `a` and `b` back when neither holds a colon. */
  lemma ExplodeJoined(a: string, b: string)
    requires ':' !in a && ':' !in b
    ensures Explode(a + "::" + b, "::") == [a, b]
  {
    var s := a + "::" + b;
    assert At(s, "::", |a|) by {
      assert s[|a|..|a| + 2] == "::";
    }
    forall j | 0 <= j < |a| ensures !At(s, "::", j) {
      assert s[j] == a[j] && a[j] in a;
      assert s[j..j + 2][0] == s[j];
    }
    assert Find(s, "::", 0) == Some(|a|);
    assert s[..|a|] == a;
    assert s[|a| + 2..] == b;
    ExplodeColonFree(b);
    assert Explode(s, "::") == [a] + Explode(b, "::");
  }
}

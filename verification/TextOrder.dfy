/** Python's order on strings. */
module TextOrder {
  import StableSort

  predicate TextLe(a: string, b: string) {
    a == "" || (b != "" && (a[0] < b[0] || (a[0] == b[0] && TextLe(a[1..], b[1..]))))
  }

  lemma {:induction false} TextLeTotal(a: string, b: string)
    ensures TextLe(a, b) || TextLe(b, a)
  {
    if a != "" && b != "" && a[0] == b[0] {
      TextLeTotal(a[1..], b[1..]);
    }
  }

  lemma {:induction false} TextLeTransitive(a: string, b: string, c: string)
    requires TextLe(a, b) && TextLe(b, c)
    ensures TextLe(a, c)
  {
    if a != "" && a[0] == b[0] == c[0] {
      TextLeTransitive(a[1..], b[1..], c[1..]);
    }
  }

  /** The order in full: `a` begins `b`, or is smaller where they first differ. */
  ghost predicate NotAfter(a: string, b: string) {
    a <= b || exists k :: 0 <= k < |a| && k < |b| && a[..k] == b[..k] && a[k] < b[k]
  }

  lemma {:induction false} TextLeIsNotAfter(a: string, b: string)
    ensures TextLe(a, b) <==> NotAfter(a, b)
  {
    if a != "" && b != "" && a[0] == b[0] {
      TextLeIsNotAfter(a[1..], b[1..]);
      SharedFirst(a, b);
    }
  }

  lemma SharedFirst(a: string, b: string)
    requires a != "" && b != "" && a[0] == b[0]
    ensures NotAfter(a, b) <==> NotAfter(a[1..], b[1..])
  {
    if k :| 0 <= k < |a| && k < |b| && a[..k] == b[..k] && a[k] < b[k] {
      assert a[1..][..k - 1] == a[..k][1..] && b[1..][..k - 1] == b[..k][1..];
      assert a[1..][k - 1] < b[1..][k - 1];
    }
    if k :| 0 <= k < |a| - 1 && k < |b| - 1 && a[1..][..k] == b[1..][..k] && a[1..][k] < b[1..][k] {
      assert a[..k + 1] == [a[0]] + a[1..][..k] && b[..k + 1] == [b[0]] + b[1..][..k];
      assert a[k + 1] < b[k + 1];
    }
    if a[1..] <= b[1..] {
      assert a == [a[0]] + a[1..] && b == [b[0]] + b[1..];
    }
  }

  /** Two days as the scripts see them. */
  lemma DatesInOrder()
    ensures TextLe("2024-01-01", "2024-01-02") && !TextLe("2024-01-02", "2024-01-01")
  {
    var a, b := "2024-01-01", "2024-01-02";
    TextLeIsNotAfter(a, b);
    TextLeIsNotAfter(b, a);
    assert a[..9] == b[..9] && a[9] < b[9];
    forall k | 0 <= k < 10 && b[..k] == a[..k]
      ensures !(b[k] < a[k])
    {
    }
  }

  /** Comparing any text of the elements is an order to sort by. */
  lemma TextKeyIsPreorder<T(!new)>(key: T -> string, le: (T, T) -> bool)
    requires forall x, y :: le(x, y) <==> TextLe(key(x), key(y))
    ensures StableSort.TotalPreorder(le)
  {
    forall x, y
      ensures le(x, y) || le(y, x)
    {
      TextLeTotal(key(x), key(y));
    }
    forall x, y, z | le(x, y) && le(y, z)
      ensures le(x, z)
    {
      TextLeTransitive(key(x), key(y), key(z));
    }
  }
}

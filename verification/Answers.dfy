/** Comparison of answer sets: the count-and-decrement loop decides multiset
    equality of answers, because the string key of an answer determines it. */
module Answers {
  import opened Bundles

  // ---- The string key of an answer ----

  function Digit(d: nat): char
    requires d < 10
  {
    ('0' as int + d) as char
  }

  /** Decimal notation of a non-negative number. */
  function Digits(n: nat): string {
    if n < 10 then [Digit(n)] else Digits(n / 10) + [Digit(n % 10)]
  }

  function Itoa(n: int): string {
    if n < 0 then "-" + Digits(-n) else Digits(n)
  }

  function AnswerKey(a: Answer): string {
    a.ip + ":" + Itoa(a.port)
  }

  lemma {:induction false} DigitsShape(n: nat)
    ensures Digits(n) != [] && forall c | c in Digits(n) :: '0' <= c <= '9'
  {
    if n >= 10 {
      DigitsShape(n / 10);
    }
  }

  lemma {:induction false} DigitsInjective(m: nat, n: nat)
    requires Digits(m) == Digits(n)
    ensures m == n
  {
    DigitsShape(m / 10);
    DigitsShape(n / 10);
    var s := Digits(m);
    if m >= 10 && n >= 10 {
      assert Digits(m / 10) == s[..|s| - 1] == Digits(n / 10);
      assert Digit(m % 10) == s[|s| - 1] == Digit(n % 10);
      DigitsInjective(m / 10, n / 10);
    } else if m < 10 && n < 10 {
      assert s[0] == Digit(m) == Digit(n);
    }
  }

  lemma ItoaShape(n: int)
    ensures ':' !in Itoa(n)
    ensures Itoa(n) != [] && (Itoa(n)[0] == '-' <==> n < 0)
  {
    var d := Digits(if n < 0 then -n else n);
    DigitsShape(if n < 0 then -n else n);
    assert d[0] in d;
  }

  lemma ItoaInjective(m: int, n: int)
    requires Itoa(m) == Itoa(n)
    ensures m == n
  {
    ItoaShape(m);
    ItoaShape(n);
    if m < 0 {
      assert Digits(-m) == Itoa(m)[1..] == Digits(-n);
      DigitsInjective(-m, -n);
    } else {
      DigitsInjective(m, n);
    }
  }

  /** The last colon splits a key, whatever colons the IP holds. */
  lemma LastColonSplits(p: string, s: string, q: string, t: string)
    requires p + ":" + s == q + ":" + t
    requires ':' !in s && ':' !in t
    ensures p == q && s == t
  {
    var w := p + ":" + s;
    assert w[|p|] == ':' && w[|q|] == ':';
    assert p == w[..|p|] && q == w[..|q|];
    assert s == w[|p| + 1..] && t == w[|q| + 1..];
  }

  /** Distinct answers have distinct keys, on every (string, int) pair. */
  lemma AnswerKeyInjective(a: Answer, b: Answer)
    ensures AnswerKey(a) == AnswerKey(b) <==> a == b
  {
    if AnswerKey(a) == AnswerKey(b) {
      ItoaShape(a.port);
      ItoaShape(b.port);
      LastColonSplits(a.ip, Itoa(a.port), b.ip, Itoa(b.port));
      ItoaInjective(a.port, b.port);
    }
  }

  // ---- Multisets of answers and of their keys ----

  ghost predicate Same(a: seq<Answer>, b: seq<Answer>) {
    multiset(a) == multiset(b)
  }

  ghost function Keys(s: seq<Answer>): seq<string> {
    seq(|s|, i requires 0 <= i < |s| => AnswerKey(s[i]))
  }

  lemma {:induction false} KeyCount(s: seq<Answer>, a: Answer)
    ensures multiset(Keys(s))[AnswerKey(a)] == multiset(s)[a]
  {
    if s != [] {
      hide AnswerKey;
      var n := |s| - 1;
      KeyCount(s[..n], a);
      AnswerKeyInjective(s[n], a);
      assert s == s[..n] + [s[n]];
      assert Keys(s) == Keys(s[..n]) + [AnswerKey(s[n])];
    }
  }

  lemma KeysDecideSame(a: seq<Answer>, b: seq<Answer>)
    ensures multiset(Keys(a)) == multiset(Keys(b)) <==> Same(a, b)
  {
    if multiset(Keys(a)) == multiset(Keys(b)) {
      forall x: Answer ensures multiset(a)[x] == multiset(b)[x] {
        KeyCount(a, x);
        KeyCount(b, x);
      }
    }
    if Same(a, b) {
      forall k: string ensures multiset(Keys(a))[k] == multiset(Keys(b))[k] {
        if i: int :| 0 <= i < |a| && AnswerKey(a[i]) == k {
          KeyCount(a, a[i]);
          KeyCount(b, a[i]);
        } else if j: int :| 0 <= j < |b| && AnswerKey(b[j]) == k {
          KeyCount(a, b[j]);
          KeyCount(b, b[j]);
        } else {
          assert k !in Keys(a) && k !in Keys(b);
        }
      }
    }
  }

  /** How often `k` was counted so far: a missing map entry reads as zero. */
  function Count(counts: map<string, int>, k: string): int {
    if k in counts then counts[k] else 0
  }

  ghost predicate Counts(counts: map<string, int>, m: multiset<string>) {
    forall k :: Count(counts, k) == m[k]
  }

  /** The comparison loop decides multiset equality. */
  method AnswerSetEqual(a: seq<Answer>, b: seq<Answer>) returns (r: bool)
    ensures r <==> Same(a, b)
  {
    if |a| != |b| {
      assert |multiset(a)| == |a| && |multiset(b)| == |b|;
      return false;
    }
    KeysDecideSame(a, b);
    var counts := CountKeys(a);
    r := Covers(counts, b, multiset(Keys(a)));
    if r {
      ghost var rest := multiset(Keys(a)) - multiset(Keys(b));
      assert multiset(Keys(a)) == multiset(Keys(b)) + rest;
      assert |rest| == 0;
    }
  }

  /** The second loop: every key of `b` is still in stock when it is taken. */
  method Covers(counts0: map<string, int>, b: seq<Answer>, ghost stock: multiset<string>) returns (r: bool)
    requires Counts(counts0, stock)
    ensures r <==> multiset(Keys(b)) <= stock
  {
    hide AnswerKey;
    var counts := counts0;
    ghost var kb, rest := Keys(b), stock;
    for j := 0 to |b|
      invariant Counts(counts, rest)
      invariant stock == rest + multiset(kb[..j])
    {
      var k := AnswerKey(b[j]);
      TakeOne(kb, j);
      if Count(counts, k) == 0 {
        return false;
      }
      counts := counts[k := Count(counts, k) - 1];
      rest := rest - multiset{k};
    }
    assert kb[..|b|] == kb;
    return true;
  }

  lemma TakeOne(s: seq<string>, j: nat)
    requires j < |s|
    ensures multiset(s[..j + 1]) == multiset(s[..j]) + multiset{s[j]}
    ensures multiset(s)[s[j]] > multiset(s[..j])[s[j]]
  {
    assert s[..j + 1] == s[..j] + [s[j]];
    assert s == s[..j + 1] + s[j + 1..];
  }

  method CountKeys(a: seq<Answer>) returns (counts: map<string, int>)
    ensures Counts(counts, multiset(Keys(a)))
  {
    hide AnswerKey;
    ghost var ka := Keys(a);
    counts := map[];
    for i := 0 to |a|
      invariant Counts(counts, multiset(ka[..i]))
    {
      var k := AnswerKey(a[i]);
      assert ka[..i + 1] == ka[..i] + [k];
      counts := counts[k := Count(counts, k) + 1];
    }
    assert ka[..|a|] == ka;
  }
}

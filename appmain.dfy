/** The application's CORS policy: the configured origins merged with the
    built-in frontend origins, duplicates dropped, unless the configuration
    allows every origin. A regular expression admitting Cloud Run preview
    hosts is attached in both cases. */
module App {
  import Config

  const DefaultCorsOrigins: seq<string> := [
    "http://localhost:3000",
    "http://127.0.0.1:3000",
    "https://salthub-new-628837369388.us-central1.run.app"
  ]

  /** The pattern for Cloud Run hosts, as regular-expression source text. */
  const RunAppOriginRegex: string := "https://.*run\\.app"

  datatype CorsPolicy = CorsPolicy(allowOrigins: seq<string>, allowOriginRegex: string)

  predicate NoDuplicates(s: seq<string>) {
    forall i, j :: 0 <= i < j < |s| ==> s[i] != s[j]
  }

  /** The position of the first occurrence of `x` in `s`. */
  function FirstIndex(s: seq<string>, x: string): (k: nat)
    requires x in s
    ensures k < |s| && s[k] == x && x !in s[..k]
  {
    if s[0] == x then 0
    else
      var k := FirstIndex(s[1..], x);
      assert s[..k + 1] == [s[0]] + s[1..][..k];
      k + 1
  }

  /** Appending an element does not move the first occurrence of one that is
      already there. */
  lemma {:induction false} FirstIndexSnoc(s: seq<string>, x: string, y: string)
    requires y in s
    ensures FirstIndex(s + [x], y) == FirstIndex(s, y)
  {
    if s[0] != y {
      assert (s + [x])[1..] == s[1..] + [x];
      FirstIndexSnoc(s[1..], x, y);
    }
  }

  /** `list(dict.fromkeys(s))`: every element once, at the place of its first
      occurrence. */
  function Dedupe(s: seq<string>): (r: seq<string>)
    ensures |r| <= |s|
    ensures forall x :: x in r <==> x in s
    ensures NoDuplicates(r)
  {
    if |s| == 0 then []
    else
      var init := s[..|s| - 1];
      var r := Dedupe(init);
      if s[|s| - 1] in r then r else r + [s[|s| - 1]]
  }

  /** Elements held in order of first occurrence in `s`. */
  ghost predicate FirstOrder(s: seq<string>, r: seq<string>) {
    (forall i :: 0 <= i < |r| ==> r[i] in s) &&
    forall i, j :: 0 <= i < j < |r| ==> FirstIndex(s, r[i]) < FirstIndex(s, r[j])
  }

  /** Appending to `s` keeps that order, and a new element goes last. */
  lemma FirstOrderSnoc(s: seq<string>, r: seq<string>, x: string)
    requires FirstOrder(s, r)
    ensures FirstOrder(s + [x], r)
    ensures x !in s ==> FirstOrder(s + [x], r + [x])
  {
    var t := s + [x];
    forall i | 0 <= i < |r| ensures FirstIndex(t, r[i]) == FirstIndex(s, r[i]) {
      FirstIndexSnoc(s, x, r[i]);
    }
    if x !in s {
      assert FirstIndex(t, x) == |s| by {
        assert t[..|s|] == s;
      }
      var r' := r + [x];
      forall i, j | 0 <= i < j < |r'| ensures FirstIndex(t, r'[i]) < FirstIndex(t, r'[j]) {
        assert r'[i] == r[i];
        if j < |r| {
          assert r'[j] == r[j];
        }
      }
    }
  }

  /** The deduplicated elements appear in the order of their first
      occurrences. */
  lemma {:induction false} DedupeOrder(s: seq<string>)
    ensures FirstOrder(s, Dedupe(s))
  {
    if |s| > 0 {
      var init := s[..|s| - 1];
      var x := s[|s| - 1];
      assert s == init + [x];
      DedupeOrder(init);
      FirstOrderSnoc(init, Dedupe(init), x);
    }
  }

  /** A list without duplicates is kept as it is. */
  lemma {:induction false} DedupeDistinct(s: seq<string>)
    requires NoDuplicates(s)
    ensures Dedupe(s) == s
  {
    if |s| > 0 {
      var init := s[..|s| - 1];
      var x := s[|s| - 1];
      assert NoDuplicates(init) by {
        forall i, j | 0 <= i < j < |init| ensures init[i] != init[j] {
          assert init[i] == s[i] && init[j] == s[j];
        }
      }
      DedupeDistinct(init);
      assert x !in init by {
        forall i | 0 <= i < |init| ensures init[i] != x {
          assert init[i] == s[i];
        }
      }
      assert Dedupe(s) == Dedupe(init) + [x];
    }
  }

  /** Appending more elements only extends the deduplicated list. */
  lemma {:induction false} DedupeAppend(a: seq<string>, b: seq<string>)
    ensures Dedupe(a) <= Dedupe(a + b)
  {
    if |b| > 0 {
      var b' := b[..|b| - 1];
      DedupeAppend(a, b');
      assert (a + b)[..|a + b| - 1] == a + b';
    } else {
      assert a + b == a;
    }
  }

  lemma DefaultsDistinct()
    ensures NoDuplicates(DefaultCorsOrigins)
  {
    var d := DefaultCorsOrigins;
    assert d[0][7] != d[1][7];
    assert |d[2]| != |d[0]| && |d[2]| != |d[1]|;
  }

  /** The origins and the origin pattern handed to the CORS middleware. */
  function AllowedOrigins(configured: seq<string>): (p: CorsPolicy)
    ensures p.allowOriginRegex == RunAppOriginRegex
    ensures "*" in configured ==> p.allowOrigins == ["*"]
    ensures "*" !in configured ==> p.allowOrigins == Dedupe(configured + DefaultCorsOrigins)
  {
    if "*" in configured then CorsPolicy(["*"], RunAppOriginRegex)
    else CorsPolicy(Dedupe(configured + DefaultCorsOrigins), RunAppOriginRegex)
  }

  /** Without a wildcard every configured and every built-in origin is
      allowed exactly once, nothing else is, and the configured origins come
      first in their own order. */
  lemma MergedOrigins(configured: seq<string>)
    requires "*" !in configured
    ensures var o := AllowedOrigins(configured).allowOrigins;
      (forall x :: x in o <==> x in configured || x in DefaultCorsOrigins) &&
      NoDuplicates(o) &&
      Dedupe(configured) <= o
  {
    DedupeAppend(configured, DefaultCorsOrigins);
  }

  /** With nothing configured, exactly the built-in origins are allowed, in
      their order. */
  lemma NoConfiguredOrigins()
    ensures AllowedOrigins([]).allowOrigins == DefaultCorsOrigins
  {
    DefaultsDistinct();
    DedupeDistinct(DefaultCorsOrigins);
    assert [] + DefaultCorsOrigins == DefaultCorsOrigins;
  }

  /** With the setting left unset every origin is allowed. */
  lemma UnsetOriginsAllowEvery()
    ensures AllowedOrigins(Config.UnsetCorsOrigins) == CorsPolicy(["*"], RunAppOriginRegex)
  {
    assert "*" in Config.UnsetCorsOrigins;
  }
}

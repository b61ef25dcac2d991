/**
  The metadata scrubber of del_metadata.py: the two byte-regex substitutions
  that blank out author names and timestamps (every `w:author="..."` becomes
  `w:author="Unknown Author"`, every `w:date="..."` becomes `w:date=""`),
  modelled as one left-to-right, non-overlapping scanner over bytes,
  parameterised by
  the key (the attribute prefix up to and including its opening quote) and the
  replacement value.  At each position the scanner checks for the key; if the
  key is there and its value is closed by a quote before any newline (the
  pattern's `.` matches every byte but 0x0A, and `*?` stops at the first quote),
  the whole occurrence is replaced and scanning resumes after the closing
  quote; otherwise the byte is copied and scanning resumes one byte further.
*/
module Scrubber {
  import opened Wrappers

  newtype byte = x: int | 0 <= x < 256
  type Bytes = seq<byte>

  const Quote: byte := 34    // '"'
  const Newline: byte := 10  // '\n', the only byte the pattern's '.' refuses

  /** A rewrite rule: every closed `key` value becomes `repl`. */
  datatype Rule = Rule(key: Bytes, repl: Bytes)

  /** `w:author="` */
  const AuthorKey: Bytes := [119, 58, 97, 117, 116, 104, 111, 114, 61, 34]
  /** `Unknown Author` */
  const UnknownAuthor: Bytes := [85, 110, 107, 110, 111, 119, 110, 32, 65, 117, 116, 104, 111, 114]
  /** `w:date="` */
  const DateKey: Bytes := [119, 58, 100, 97, 116, 101, 61, 34]

  const AuthorRule: Rule := Rule(AuthorKey, UnknownAuthor)
  const DateRule: Rule := Rule(DateKey, [])

  /** What the rule writes in place of each occurrence: key, new value, closing quote. */
  function Replacement(rule: Rule): Bytes {
    rule.key + rule.repl + [Quote]
  }

  // ---------------------------------------------------------------------------
  // Matching one occurrence

  /** The bytes at which a value scan stops: the closing quote, or a newline. */
  predicate IsStop(b: byte) {
    b == Quote || b == Newline
  }

  predicate StopFree(s: Bytes) {
    forall i :: 0 <= i < |s| ==> !IsStop(s[i])
  }

  predicate StartsWith(s: Bytes, p: Bytes) {
    |p| <= |s| && s[..|p|] == p
  }

  /** The index of the first quote or newline in `s`, or `|s|` if there is none. */
  function FirstStop(s: Bytes): (q: nat)
    ensures q <= |s| && StopFree(s[..q])
    ensures q < |s| ==> IsStop(s[q])
  {
    if s == [] then 0
    else if IsStop(s[0]) then 0
    else
      var q' := FirstStop(s[1..]);
      assert s[..q' + 1] == [s[0]] + s[1..][..q'];
      1 + q'
  }

  /**
    Where the occurrence of `key` at the start of `s` ends, if the pattern
    matches there: the index of the first quote after the key, provided no
    newline comes before it.
  */
  function MatchEnd(key: Bytes, s: Bytes): (r: Option<nat>)
    ensures r.Some? ==>
      StartsWith(s, key) && |key| <= r.value < |s| && s[r.value] == Quote && StopFree(s[|key|..r.value])
    ensures r.None? && StartsWith(s, key) ==> NoClose(s[|key|..])
  {
    if StartsWith(s, key) then
      var v := s[|key|..];
      var q := FirstStop(v);
      assert s[|key|..|key| + q] == v[..q];
      if q < |v| && v[q] == Quote then Some(|key| + q) else None
    else None
  }

  // ---------------------------------------------------------------------------
  // The scanner

  /** `re.sub(key + b'(.*?)"', key + repl + b'"', s)` for a key ending in a quote. */
  function Scrub(rule: Rule, s: Bytes): Bytes
    decreases |s|
  {
    if s == [] then []
    else
      match MatchEnd(rule.key, s)
      case Some(j) => Replacement(rule) + Scrub(rule, s[j + 1..])
      case None => [s[0]] + Scrub(rule, s[1..])
  }

  /** The document part: authors first, then dates (lines 50-51). */
  function ScrubDocument(data: Bytes): Bytes {
    Scrub(DateRule, Scrub(AuthorRule, data))
  }

  // ---------------------------------------------------------------------------
  // Shape of the rules

  /** A key ends in its opening quote and holds no other quote or newline. */
  predicate KeyShape(key: Bytes) {
    |key| >= 2 && key[|key| - 1] == Quote && StopFree(key[..|key| - 1])
  }

  /** `y` differs from `p` at an index both have, so nothing beginning with `y` begins with `p`. */
  predicate Mismatch(y: Bytes, p: Bytes)
    decreases |y|
  {
    |y| > 0 && |p| > 0 && (y[0] != p[0] || Mismatch(y[1..], p[1..]))
  }

  /** No occurrence of `key` can begin at any position of `x`, whatever follows `x`. */
  predicate Avoids(x: Bytes, key: Bytes)
    decreases |x|
  {
    |x| == 0 || (Mismatch(x, key) && Avoids(x[1..], key))
  }

  /**
    A rule whose replacement cannot be matched again except at its own start:
    the key overlaps itself nowhere, and the new value holds no quote, no
    newline and no beginning of the key.
  */
  predicate WellFormed(rule: Rule) {
    KeyShape(rule.key) && StopFree(rule.repl) &&
    Avoids(rule.key[1..], rule.key) && Avoids(rule.repl + [Quote], rule.key)
  }

  /** Applying `second` after `first` cannot create or spoil an occurrence of `first`'s key. */
  predicate Compatible(first: Rule, second: Rule) {
    Avoids(Replacement(second), first.key) &&
    Avoids(first.key[1..], second.key) && Avoids(first.repl + [Quote], second.key)
  }

  lemma {:induction false} MismatchExtend(y: Bytes, p: Bytes, t: Bytes)
    requires Mismatch(y, p)
    ensures Mismatch(y + t, p)
    decreases |y|
  {
    if y[0] == p[0] {
      assert (y + t)[1..] == y[1..] + t;
      MismatchExtend(y[1..], p[1..], t);
    }
  }

  lemma {:induction false} AvoidsConcat(x: Bytes, y: Bytes, key: Bytes)
    requires Avoids(x, key) && Avoids(y, key)
    ensures Avoids(x + y, key)
    decreases |x|
  {
    if x != [] {
      MismatchExtend(x, key, y);
      assert (x + y)[1..] == x[1..] + y;
      AvoidsConcat(x[1..], y, key);
    } else {
      assert x + y == y;
    }
  }

  /** Bytes that never equal the key's first byte cannot start it. */
  lemma {:induction false} AvoidsWithoutLead(x: Bytes, key: Bytes)
    requires |key| > 0
    requires forall i :: 0 <= i < |x| ==> x[i] != key[0]
    ensures Avoids(x, key)
    decreases |x|
  {
    if x != [] {
      AvoidsWithoutLead(x[1..], key);
    }
  }

  lemma AuthorRuleWellFormed()
    ensures WellFormed(AuthorRule)
  {
    var k := AuthorKey;
    assert k[..9] == [119, 58, 97, 117, 116, 104, 111, 114, 61];
    assert k[1..] == [58, 97, 117, 116, 104, 111, 114, 61, 34];
    AvoidsWithoutLead(k[1..], k);
    AvoidsLoneW(UnknownAuthor + [Quote], 5, k);
  }

  lemma DateRuleWellFormed()
    ensures WellFormed(DateRule)
  {
    var k := DateKey;
    assert k[..7] == [119, 58, 100, 97, 116, 101, 61];
    assert k[1..] == [58, 100, 97, 116, 101, 61, 34];
    AvoidsWithoutLead(k[1..], k);
    assert DateRule.repl + [Quote] == [34];
    AvoidsWithoutLead([34], k);
  }

  lemma AuthorThenDateCompatible()
    ensures Compatible(AuthorRule, DateRule)
  {
    DateReplacementAvoidsAuthorKey();
    assert AuthorKey[1..] == [58, 97, 117, 116, 104, 111, 114, 61, 34];
    AvoidsWithoutLead(AuthorKey[1..], DateKey);
    AvoidsLoneW(UnknownAuthor + [Quote], 5, DateKey);
  }

  /** `w:date=""` holds no beginning of `w:author="`: it parts from it at its third byte. */
  lemma DateReplacementAvoidsAuthorKey()
    ensures Avoids(Replacement(DateRule), AuthorKey)
  {
    var head: Bytes, tail: Bytes := [119, 58, 100], [97, 116, 101, 61, 34, 34];
    assert Replacement(DateRule) == head + tail;
    var k := AuthorKey;
    assert k[1..][1..] == k[2..];
    assert Mismatch(head[2..], k[2..]);
    assert Mismatch(head[1..], k[1..]);
    assert Mismatch(head, k);
    AvoidsWithoutLead(head[1..], k);
    AvoidsWithoutLead(tail, k);
    AvoidsConcat(head, tail, k);
  }

  /**
    `x` holds the key's first byte only at index `k`, followed by a byte other
    than the key's second.
  */
  lemma AvoidsLoneW(x: Bytes, k: nat, key: Bytes)
    requires |key| >= 2 && k + 1 < |x|
    requires x[k] == key[0] && x[k + 1] != key[1]
    requires forall i :: 0 <= i < |x| && i != k ==> x[i] != key[0]
    ensures Avoids(x, key)
  {
    var a, b := x[..k], x[k..];
    AvoidsWithoutLead(a, key);
    AvoidsWithoutLead(b[1..], key);
    assert b[1..][1..] == b[2..];
    assert Avoids(b, key);
    AvoidsConcat(a, b, key);
    assert a + b == x;
  }

  // ---------------------------------------------------------------------------
  // Facts about single matches

  lemma {:induction false} MismatchNotPrefix(z: Bytes, p: Bytes)
    requires Mismatch(z, p)
    ensures !StartsWith(z, p)
    decreases |z|
  {
    if z[0] == p[0] {
      MismatchNotPrefix(z[1..], p[1..]);
    }
  }

  lemma {:induction false} FirstStopUnique(s: Bytes, q: nat)
    requires q <= |s| && StopFree(s[..q])
    requires q < |s| ==> IsStop(s[q])
    ensures FirstStop(s) == q
    decreases q
  {
    if q > 0 {
      var t := s[1..];
      assert s[..q][0] == s[0];
      assert StopFree(t[..q - 1]) by {
        forall i | 0 <= i < q - 1
          ensures t[i] != Quote && t[i] != Newline
        {
          assert t[i] == s[..q][i + 1];
        }
      }
      FirstStopUnique(t, q - 1);
    }
  }

  /** A key at the front of `s` puts the first quote or newline of `s` at the key's last byte. */
  lemma KeyFirstStop(key: Bytes, s: Bytes)
    requires KeyShape(key) && StartsWith(s, key)
    ensures FirstStop(s) == |key| - 1
  {
    assert s[..|key| - 1] == key[..|key| - 1];
    assert s[|key| - 1] == key[|key| - 1];
    FirstStopUnique(s, |key| - 1);
  }

  /** The value after a key is not closed: its first stop is a newline, or it has none. */
  predicate NoClose(v: Bytes) {
    var q := FirstStop(v);
    q == |v| || v[q] != Quote
  }

  /** `a` and `b` agree up to and including the first quote or newline of `a`. */
  predicate AgreeThroughStop(a: Bytes, b: Bytes) {
    var q := FirstStop(a);
    if q == |a| then b == a else q < |b| && b[..q + 1] == a[..q + 1]
  }

  lemma FirstStopAgree(a: Bytes, b: Bytes)
    requires AgreeThroughStop(a, b)
    ensures FirstStop(b) == FirstStop(a)
    ensures FirstStop(a) < |a| ==> b[FirstStop(a)] == a[FirstStop(a)]
  {
    var q := FirstStop(a);
    if q < |a| {
      assert b[..q] == b[..q + 1][..q];
      assert a[..q] == a[..q + 1][..q];
      assert b[q] == b[..q + 1][q];
      FirstStopUnique(b, q);
    }
  }

  // ---------------------------------------------------------------------------
  // What the scanner does, position by position

  lemma ScrubStepMatch(rule: Rule, s: Bytes, j: nat, t: Bytes)
    requires MatchEnd(rule.key, s) == Some(j) && t == s[j + 1..]
    ensures Scrub(rule, s) == Replacement(rule) + Scrub(rule, t)
  {
  }

  lemma ScrubStepCopy(rule: Rule, s: Bytes)
    requires s != [] && MatchEnd(rule.key, s).None?
    ensures Scrub(rule, s) == [s[0]] + Scrub(rule, s[1..])
  {
  }

  /** A stretch from which no key can begin is copied as it is, then scanning goes on. */
  lemma {:induction false} CopyAvoiding(rule: Rule, x: Bytes, t: Bytes)
    requires Avoids(x, rule.key)
    ensures Scrub(rule, x + t) == x + Scrub(rule, t)
    decreases |x|
  {
    if x == [] {
      assert x + t == t;
    } else {
      MismatchExtend(x, rule.key, t);
      MismatchNotPrefix(x + t, rule.key);
      assert (x + t)[1..] == x[1..] + t;
      CopyAvoiding(rule, x[1..], t);
    }
  }

  /**
    An occurrence `key v"` whose value `v` holds no quote and no newline is
    replaced by exactly the rule's replacement, and scanning resumes right
    after its closing quote.
  */
  lemma ScrubMatch(rule: Rule, v: Bytes, t: Bytes)
    requires StopFree(v)
    ensures Scrub(rule, rule.key + v + [Quote] + t) == Replacement(rule) + Scrub(rule, t)
  {
    var s := rule.key + v + [Quote] + t;
    assert s[..|rule.key|] == rule.key;
    var w := s[|rule.key|..];
    assert w == v + [Quote] + t;
    assert w[..|v|] == v;
    FirstStopUnique(w, |v|);
    assert MatchEnd(rule.key, s) == Some(|rule.key| + |v|);
    assert s[|rule.key| + |v| + 1..] == t;
  }

  /** Bytes at positions where the pattern does not match are copied unchanged and in order. */
  lemma {:induction false} CopyPrefix(rule: Rule, s: Bytes, k: nat)
    requires k <= |s|
    requires forall i :: 0 <= i < k ==> MatchEnd(rule.key, s[i..]).None?
    ensures Scrub(rule, s) == s[..k] + Scrub(rule, s[k..])
    decreases k
  {
    if k > 0 {
      assert s[0..] == s;
      var t := s[1..];
      forall i | 0 <= i < k - 1
        ensures MatchEnd(rule.key, t[i..]).None?
      {
        assert t[i..] == s[i + 1..];
      }
      CopyPrefix(rule, t, k - 1);
      assert t[k - 1..] == s[k..];
      assert [s[0]] + t[..k - 1] == s[..k];
    }
  }

  /**
    The first match at or after position 0 lies at `k`, with value `v`: the
    bytes before it are copied, it becomes the replacement, and scanning
    resumes after it.
  */
  lemma ScrubAt(rule: Rule, s: Bytes, k: nat, v: Bytes, t: Bytes)
    requires k <= |s| && StopFree(v)
    requires s[k..] == rule.key + v + [Quote] + t
    requires forall i :: 0 <= i < k ==> MatchEnd(rule.key, s[i..]).None?
    ensures Scrub(rule, s) == s[..k] + Replacement(rule) + Scrub(rule, t)
  {
    CopyPrefix(rule, s, k);
    ScrubMatch(rule, v, t);
  }

  /** Where the pattern matches nowhere, scrubbing leaves the bytes as they are. */
  lemma ScrubInert(rule: Rule, s: Bytes)
    requires forall i :: 0 <= i < |s| ==> MatchEnd(rule.key, s[i..]).None?
    ensures Scrub(rule, s) == s
  {
    CopyPrefix(rule, s, |s|);
    assert s[|s|..] == [];
    assert s[..|s|] == s;
  }

  /** Scrubbing changes nothing before, and including, the first quote or newline. */
  lemma {:induction false} ScrubAgrees(rule: Rule, s: Bytes)
    requires KeyShape(rule.key)
    ensures AgreeThroughStop(s, Scrub(rule, s))
    decreases |s|
  {
    if s != [] {
      var out := Scrub(rule, s);
      match MatchEnd(rule.key, s)
      case Some(j) =>
        KeyFirstStop(rule.key, s);
        ScrubStepMatch(rule, s, j, s[j + 1..]);
        StartsWithConcat(Replacement(rule), Scrub(rule, s[j + 1..]));
        assert out[..|rule.key|] == rule.key;
      case None =>
        ScrubStepCopy(rule, s);
        if !IsStop(s[0]) {
          ScrubAgrees(rule, s[1..]);
          AgreeCons(s[0], s[1..], Scrub(rule, s[1..]));
        }
    }
  }

  /** Agreement through the first stop survives putting the same non-stop byte in front. */
  lemma AgreeCons(b: byte, a: Bytes, c: Bytes)
    requires !IsStop(b) && AgreeThroughStop(a, c)
    ensures AgreeThroughStop([b] + a, [b] + c)
  {
    var q' := FirstStop(a);
    var s, out := [b] + a, [b] + c;
    assert s[1..] == a;
    assert FirstStop(s) == q' + 1;
    if q' < |a| {
      assert out[..q' + 2] == [b] + c[..q' + 1];
      assert s[..q' + 2] == [b] + a[..q' + 1];
    }
  }

  /** An unclosed value stays unclosed. */
  lemma NoCloseKept(rule: Rule, v: Bytes)
    requires KeyShape(rule.key) && NoClose(v)
    ensures NoClose(Scrub(rule, v))
  {
    ScrubAgrees(rule, v);
    FirstStopAgree(v, Scrub(rule, v));
  }

  /**
    Scrubbing the rest of `s` cannot make a key (of any shape-respecting rule)
    appear at the front of `s` that was not already there.
  */
  lemma LeadKept(rule: Rule, key: Bytes, s: Bytes)
    requires KeyShape(rule.key) && KeyShape(key) && s != []
    requires StartsWith([s[0]] + Scrub(rule, s[1..]), key)
    ensures StartsWith(s, key)
  {
    var t := s[1..];
    var w := [s[0]] + Scrub(rule, t);
    var n := |key|;
    ScrubAgrees(rule, t);
    var q := FirstStop(t);
    if q == |t| {
      assert w == s;
    } else {
      assert w[q + 1] == t[q];
      assert q + 1 >= n - 1;
      forall i | 0 <= i < n
        ensures w[i] == s[i]
      {
        if i > 0 {
          assert Scrub(rule, t)[..q + 1][i - 1] == t[..q + 1][i - 1];
        }
      }
      assert w[..n] == s[..n];
    }
  }

  // ---------------------------------------------------------------------------
  // Scrubbed bytes

  /**
    At every position of `s` where the pattern matches, the value already is
    the rule's replacement value: every closed `w:author="` reads
    `w:author="Unknown Author"`, every closed `w:date="` reads `w:date=""`.
  */
  predicate Clean(rule: Rule, s: Bytes)
    decreases |s|
  {
    s == [] ||
    ((MatchEnd(rule.key, s).Some? ==> StartsWith(s, Replacement(rule))) && Clean(rule, s[1..]))
  }

  lemma {:induction false} CleanSuffix(rule: Rule, s: Bytes, k: nat)
    requires k <= |s| && Clean(rule, s)
    ensures Clean(rule, s[k..])
    decreases k
  {
    if k > 0 {
      CleanSuffix(rule, s[1..], k - 1);
      assert s[1..][k - 1..] == s[k..];
    }
  }

  lemma {:induction false} CleanPrepend(rule: Rule, x: Bytes, t: Bytes)
    requires Avoids(x, rule.key) && Clean(rule, t)
    ensures Clean(rule, x + t)
    decreases |x|
  {
    if x == [] {
      assert x + t == t;
    } else {
      MismatchExtend(x, rule.key, t);
      MismatchNotPrefix(x + t, rule.key);
      CleanPrepend(rule, x[1..], t);
      assert (x + t)[1..] == x[1..] + t;
    }
  }

  lemma CleanCons(rule: Rule, s: Bytes)
    requires s != [] && Clean(rule, s[1..])
    requires MatchEnd(rule.key, s).Some? ==> StartsWith(s, Replacement(rule))
    ensures Clean(rule, s)
  {
  }

  lemma StartsWithConcat(p: Bytes, t: Bytes)
    ensures StartsWith(p + t, p)
  {
    assert (p + t)[..|p|] == p;
  }

  lemma JoinReplacement(rule: Rule, t: Bytes)
    ensures Replacement(rule) + t == rule.key + (rule.repl + [Quote] + t)
  {
  }

  lemma DropPrefix(p: Bytes, x: Bytes)
    ensures (p + x)[|p|..] == x
  {
  }

  lemma DropFirst(k: Bytes, x: Bytes)
    requires |k| > 0
    ensures (k + x)[1..] == k[1..] + x
  {
  }

  /** A replacement followed by clean bytes is clean. */
  lemma CleanAfterReplacement(rule: Rule, t: Bytes)
    requires |rule.key| > 0 && Avoids(rule.key[1..], rule.key) && Avoids(rule.repl + [Quote], rule.key)
    requires Clean(rule, t)
    ensures Clean(rule, Replacement(rule) + t)
  {
    var k, y := rule.key, rule.repl + [Quote];
    var x := y + t;
    CleanPrepend(rule, y, t);
    CleanPrepend(rule, k[1..], x);
    var s := Replacement(rule) + t;
    JoinReplacement(rule, t);
    DropFirst(k, x);
    StartsWithConcat(Replacement(rule), t);
    CleanCons(rule, s);
  }

  /** Where the pattern does not match at the front of `s`, it does not match at the front of the scrubbed bytes either. */
  lemma LeadNotMatched(rule: Rule, s: Bytes)
    requires WellFormed(rule) && s != [] && MatchEnd(rule.key, s).None?
    ensures MatchEnd(rule.key, [s[0]] + Scrub(rule, s[1..])).None?
  {
    var w := [s[0]] + Scrub(rule, s[1..]);
    var k := rule.key;
    if StartsWith(w, k) {
      LeadKept(rule, k, s);
      UnclosedLeadKept(rule, k, s);
    }
  }

  /** A scrubbed part holds no filled-in value of the rule's key: the doc comment's "metadata appears empty". */
  lemma {:induction false} ScrubClean(rule: Rule, s: Bytes)
    requires WellFormed(rule)
    ensures Clean(rule, Scrub(rule, s))
    decreases |s|
  {
    if s != [] {
      match MatchEnd(rule.key, s)
      case Some(j) =>
        ScrubClean(rule, s[j + 1..]);
        CleanAfterReplacement(rule, Scrub(rule, s[j + 1..]));
      case None =>
        var w := [s[0]] + Scrub(rule, s[1..]);
        ScrubClean(rule, s[1..]);
        LeadNotMatched(rule, s);
        assert w[1..] == Scrub(rule, s[1..]);
    }
  }

  /** Scrubbed bytes are left alone, and only they are: the fixpoints of the scanner are the clean byte strings. */
  lemma {:induction false} ScrubFixpoint(rule: Rule, s: Bytes)
    requires WellFormed(rule)
    ensures Scrub(rule, s) == s <==> Clean(rule, s)
    decreases |s|
  {
    if s != [] {
      var k := rule.key;
      match MatchEnd(k, s)
      case Some(j) =>
        ScrubFixpoint(rule, s[j + 1..]);
        if Clean(rule, s) {
          CleanMatchFixed(rule, s, j);
        }
        if Scrub(rule, s) == s {
          FixedMatchClean(rule, s, j);
        }
      case None =>
        ScrubFixpoint(rule, s[1..]);
        assert s == [s[0]] + s[1..];
    }
  }

  lemma StartsWithSplit(s: Bytes, p: Bytes)
    requires StartsWith(s, p)
    ensures s == p + s[|p|..]
  {
    assert s == s[..|p|] + s[|p|..];
  }

  /** A match at the front of bytes that begin with the replacement ends exactly where the replacement does. */
  lemma MatchedReplacement(rule: Rule, s: Bytes, j: nat)
    requires StopFree(rule.repl) && MatchEnd(rule.key, s) == Some(j)
    requires StartsWith(s, Replacement(rule))
    ensures j == |Replacement(rule)| - 1
  {
    var k, m := rule.key, Replacement(rule);
    var n := |k| + |rule.repl|;
    assert s[|k|..n] == m[|k|..n] == rule.repl by {
      assert s[|k|..n] == s[..|m|][|k|..n];
    }
    assert s[n] == m[n];
    var w := s[|k|..];
    assert w[..j - |k|] == s[|k|..j];
    assert w[..n - |k|] == s[|k|..n];
    FirstStopUnique(w, j - |k|);
    FirstStopUnique(w, n - |k|);
  }

  lemma CleanMatchFixed(rule: Rule, s: Bytes, j: nat)
    requires StopFree(rule.repl) && MatchEnd(rule.key, s) == Some(j)
    requires Clean(rule, s) && (Clean(rule, s[j + 1..]) ==> Scrub(rule, s[j + 1..]) == s[j + 1..])
    ensures Scrub(rule, s) == s
  {
    var m := Replacement(rule);
    assert StartsWith(s, m);
    MatchedReplacement(rule, s, j);
    CleanSuffix(rule, s, j + 1);
    StartsWithSplit(s, m);
  }

  lemma FixedMatchClean(rule: Rule, s: Bytes, j: nat)
    requires StopFree(rule.repl) && |rule.key| > 0
    requires Avoids(rule.key[1..], rule.key) && Avoids(rule.repl + [Quote], rule.key)
    requires MatchEnd(rule.key, s) == Some(j)
    requires Scrub(rule, s) == s && (Scrub(rule, s[j + 1..]) == s[j + 1..] ==> Clean(rule, s[j + 1..]))
    ensures Clean(rule, s)
  {
    var m, t := Replacement(rule), s[j + 1..];
    ScrubStepMatch(rule, s, j, s[j + 1..]);
    StartsWithConcat(m, Scrub(rule, t));
    MatchedReplacement(rule, s, j);
    DropPrefix(m, Scrub(rule, t));
    CleanAfterReplacement(rule, t);
  }

  /** Each rule is idempotent: scrubbing scrubbed bytes gives the same bytes. */
  lemma ScrubIdempotent(rule: Rule, s: Bytes)
    requires WellFormed(rule)
    ensures Scrub(rule, Scrub(rule, s)) == Scrub(rule, s)
  {
    ScrubClean(rule, s);
    ScrubFixpoint(rule, Scrub(rule, s));
  }

  // ---------------------------------------------------------------------------
  // Two rules in a row

  lemma Regroup(k: Bytes, y: Bytes, x: Bytes)
    ensures k + y + x == k + (y + x)
  {
  }

  lemma ConsTail(k: Bytes, x: Bytes)
    requires |k| > 0
    ensures [k[0]] + (k[1..] + x) == k + x
  {
    assert [k[0]] + k[1..] == k;
  }

  /** A key whose value is not closed does not match. */
  lemma UnclosedNoMatch(key: Bytes, w: Bytes)
    requires StartsWith(w, key) && NoClose(w[|key|..])
    ensures MatchEnd(key, w).None?
  {
  }

  /** A key at the front whose value is not closed stays unclosed when some rule scrubs what follows it. */
  lemma UnclosedLeadKept(rule: Rule, key: Bytes, s: Bytes)
    requires KeyShape(rule.key) && |key| > 0 && Avoids(key[1..], rule.key)
    requires StartsWith(s, key) && NoClose(s[|key|..])
    ensures MatchEnd(key, [s[0]] + Scrub(rule, s[1..])).None?
  {
    var v := s[|key|..];
    StartsWithSplit(s, key);
    DropFirst(key, v);
    CopyAvoiding(rule, key[1..], v);
    ConsTail(key, Scrub(rule, v));
    NoCloseKept(rule, v);
    DropPrefix(key, Scrub(rule, v));
    StartsWithConcat(key, Scrub(rule, v));
    UnclosedNoMatch(key, key + Scrub(rule, v));
  }

  /** A replacement at the front is passed over whole when some other rule scrubs what follows its first byte. */
  lemma ReplacementLeadKept(first: Rule, second: Rule, s: Bytes)
    requires |first.key| > 0
    requires Avoids(first.key[1..], second.key) && Avoids(first.repl + [Quote], second.key)
    requires StartsWith(s, Replacement(first))
    ensures [s[0]] + Scrub(second, s[1..]) == Replacement(first) + Scrub(second, s[|Replacement(first)|..])
  {
    var k, m, y := first.key, Replacement(first), first.repl + [Quote];
    var x := s[|m|..];
    StartsWithSplit(s, m);
    assert m == k + y;
    Regroup(k, y, x);
    DropFirst(k, y + x);
    assert s[1..] == k[1..] + (y + x);
    assert s[0] == k[0];
    CopyAvoiding(second, k[1..], y + x);
    CopyAvoiding(second, y, x);
    ConsTail(k, y + Scrub(second, x));
    Regroup(k, y, Scrub(second, x));
  }

  /** After the second rule runs, the front of `s` is no less clean for the first rule than it was. */
  lemma LeadStaysClean(first: Rule, second: Rule, s: Bytes)
    requires KeyShape(first.key) && KeyShape(second.key)
    requires Avoids(first.key[1..], second.key) && Avoids(first.repl + [Quote], second.key)
    requires s != [] && Clean(first, s)
    ensures var w := [s[0]] + Scrub(second, s[1..]);
      MatchEnd(first.key, w).Some? ==> StartsWith(w, Replacement(first))
  {
    var w := [s[0]] + Scrub(second, s[1..]);
    var k := first.key;
    if StartsWith(w, k) {
      LeadKept(second, k, s);
      if MatchEnd(k, s).None? {
        UnclosedLeadKept(second, k, s);
      } else {
        ReplacementLeadKept(first, second, s);
        var m := Replacement(first);
        assert (m + Scrub(second, s[|m|..]))[..|m|] == m;
      }
    }
  }

  /** Running the second rule keeps bytes clean for the first: the date rule cannot undo the author rule. */
  lemma {:induction false} CleanPreserved(first: Rule, second: Rule, s: Bytes)
    requires WellFormed(first) && WellFormed(second) && Compatible(first, second)
    requires Clean(first, s)
    ensures Clean(first, Scrub(second, s))
    decreases |s|
  {
    if s != [] {
      match MatchEnd(second.key, s)
      case Some(j) =>
        CleanSuffix(first, s, j + 1);
        CleanPreserved(first, second, s[j + 1..]);
        ScrubStepMatch(second, s, j, s[j + 1..]);
        CleanPrepend(first, Replacement(second), Scrub(second, s[j + 1..]));
      case None =>
        CleanPreserved(first, second, s[1..]);
        LeadStaysClean(first, second, s);
        ScrubStepCopy(second, s);
        DropFirst([s[0]], Scrub(second, s[1..]));
        CleanCons(first, [s[0]] + Scrub(second, s[1..]));
    }
  }

  // ---------------------------------------------------------------------------
  // The document part

  /**
    After scrubbing, the document part holds no filled-in author and no
    filled-in date (lines 50-51; the doc comment's "Unknown Author, no date").
  */
  lemma DocumentScrubbed(data: Bytes)
    ensures Clean(AuthorRule, ScrubDocument(data)) && Clean(DateRule, ScrubDocument(data))
  {
    AuthorRuleWellFormed();
    DateRuleWellFormed();
    AuthorThenDateCompatible();
    ScrubClean(AuthorRule, data);
    CleanPreserved(AuthorRule, DateRule, Scrub(AuthorRule, data));
    ScrubClean(DateRule, Scrub(AuthorRule, data));
  }

  /** Scrubbing an already scrubbed document part changes nothing. */
  lemma DocumentIdempotent(data: Bytes)
    ensures ScrubDocument(ScrubDocument(data)) == ScrubDocument(data)
  {
    var out := ScrubDocument(data);
    DocumentScrubbed(data);
    AuthorRuleWellFormed();
    DateRuleWellFormed();
    ScrubFixpoint(AuthorRule, out);
    ScrubFixpoint(DateRule, out);
  }
}

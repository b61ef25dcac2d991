/**
  The archive transcoder of del_metadata.py, with the archive held in memory
  as the sequence of its members in directory order.  The first member whose
  name ends in `document.xml` is scrubbed and written first; the first member
  whose name ends in `comments.xml`, if any, is scrubbed and written second;
  every other member is then written as it was read, in its original order.
*/
module Transcoder {
  import opened Wrappers
  import opened Scrubber

  /** One archive member: its file name and its bytes. */
  datatype Part = Part(name: string, data: Bytes)

  type Archive = seq<Part>

  /** No member ends in `document.xml` (line 48), or the masking step broke off (lines 65-73). */
  datatype Error = MandatoryPartMissing | MaskFailed

  /**
    How comment dates are treated: erased (no `-m` flag), or, with `-m`, handed
    to a masking step supplied by the caller, which stands for the randomised
    timestamp generation.  The step may fail (`None`), as the script does when
    it finds more `w:date=` markers than closed date values, or when a date
    value is not a valid regular expression.
  */
  datatype Mode = Erase | Mask(maskDates: Bytes -> Option<Bytes>)

  const DocumentSuffix: string := "document.xml"
  const CommentsSuffix: string := "comments.xml"

  predicate EndsWith(s: string, suffix: string) {
    |suffix| <= |s| && s[|s| - |suffix|..] == suffix
  }

  function Names(a: Archive): (names: seq<string>)
    ensures |names| == |a| && forall i :: 0 <= i < |a| ==> names[i] == a[i].name
  {
    seq(|a|, i requires 0 <= i < |a| => a[i].name)
  }

  predicate DistinctNames(a: Archive) {
    forall i, j :: 0 <= i < j < |a| ==> a[i].name != a[j].name
  }

  // ---------------------------------------------------------------------------
  // Reading the source archive

  /** `boolean_list.index(True)`: the first member whose name ends in `suffix`, if any. */
  function FirstEndingWith(a: Archive, suffix: string): (r: Option<nat>)
    ensures r.Some? ==>
      r.value < |a| && EndsWith(a[r.value].name, suffix) &&
      forall j :: 0 <= j < r.value ==> !EndsWith(a[j].name, suffix)
    ensures r.None? ==> forall j :: 0 <= j < |a| ==> !EndsWith(a[j].name, suffix)
  {
    if a == [] then None
    else if EndsWith(a[0].name, suffix) then Some(0)
    else
      match FirstEndingWith(a[1..], suffix)
      case None => None
      case Some(i) => Some(i + 1)
  }

  /**
    `zin.read(name)`: the bytes of the LAST member carrying that name, since
    the archive's name index keeps the last directory entry for each name.
  */
  function Read(a: Archive, name: string): Bytes
    decreases |a|
  {
    if a == [] then []
    else if a[|a| - 1].name == name then a[|a| - 1].data
    else Read(a[..|a| - 1], name)
  }

  lemma {:induction false} ReadLast(a: Archive, k: nat)
    requires k < |a|
    requires forall j :: k < j < |a| ==> a[j].name != a[k].name
    ensures Read(a, a[k].name) == a[k].data
    decreases |a|
  {
    if k < |a| - 1 {
      var b := a[..|a| - 1];
      assert b[k] == a[k];
      ReadLast(b, k);
    }
  }

  /** With distinct names, reading a member by its name gives back its own bytes. */
  lemma ReadOwn(a: Archive, k: nat)
    requires DistinctNames(a) && k < |a|
    ensures Read(a, a[k].name) == a[k].data
  {
    ReadLast(a, k);
  }

  // ---------------------------------------------------------------------------
  // The transformation

  /** The comments part: authors always; dates erased, or masked with `-m` (lines 62-75). */
  function ScrubComments(data: Bytes, mode: Mode): Option<Bytes> {
    var authorless := Scrub(AuthorRule, data);
    match mode
    case Erase => Some(Scrub(DateRule, authorless))
    case Mask(maskDates) => maskDates(authorless)
  }

  /** There is a comments member, and the masking step fails on its bytes. */
  predicate CommentsFail(a: Archive, c: Option<nat>, mode: Mode)
    requires c.Some? ==> c.value < |a|
  {
    c.Some? && ScrubComments(Read(a, a[c.value].name), mode).None?
  }

  /** Index `i` is one of the two scrubbed members (`i in [ind_doc, ind_comments]`). */
  predicate Target(i: nat, d: nat, c: Option<nat>) {
    i == d || c == Some(i)
  }

  /** The entries of `xs` before index `n` whose index is not a target, in order. */
  function Pick<T>(xs: seq<T>, n: nat, d: nat, c: Option<nat>): seq<T>
    requires n <= |xs|
  {
    if n == 0 then []
    else Pick(xs, n - 1, d, c) + (if Target(n - 1, d, c) then [] else [xs[n - 1]])
  }

  /** Every member under its own name with the bytes `zin.read` gives for that name. */
  function Reread(a: Archive): Archive {
    seq(|a|, i requires 0 <= i < |a| => Part(a[i].name, Read(a, a[i].name)))
  }

  /** Line 79: every non-target member, in directory order, re-read by its name. */
  function Copied(a: Archive, d: nat, c: Option<nat>): Archive {
    Pick(Reread(a), |a|, d, c)
  }

  /** Line 52: the document member, re-read by its name and scrubbed. */
  function DocumentOut(a: Archive, d: nat): Part
    requires d < |a|
  {
    Part(a[d].name, ScrubDocument(Read(a, a[d].name)))
  }

  /** Line 77: the comments member, if there is one and scrubbing it succeeds, re-read by its name and scrubbed. */
  function CommentsOut(a: Archive, c: Option<nat>, mode: Mode): Archive
    requires c.Some? ==> c.value < |a|
  {
    match c
    case None => []
    case Some(k) =>
      match ScrubComments(Read(a, a[k].name), mode)
      case None => []
      case Some(data) => [Part(a[k].name, data)]
  }

  /** The archive the script writes, or the error it stops with. */
  function Transcoded(a: Archive, mode: Mode): Result<Archive, Error> {
    match FirstEndingWith(a, DocumentSuffix)
    case None => Failure(MandatoryPartMissing)
    case Some(d) =>
      var c := FirstEndingWith(a, CommentsSuffix);
      if CommentsFail(a, c, mode) then Failure(MaskFailed)
      else Success([DocumentOut(a, d)] + CommentsOut(a, c, mode) + Copied(a, d, c))
  }

  // ---------------------------------------------------------------------------
  // The script, step by step

  /** The index of the first member whose name ends in `suffix`, scanning the directory. */
  method FindFirst(a: Archive, suffix: string) returns (r: Option<nat>)
    ensures r == FirstEndingWith(a, suffix)
  {
    var i := 0;
    while i < |a|
      invariant i <= |a|
      invariant forall j :: 0 <= j < i ==> !EndsWith(a[j].name, suffix)
    {
      if EndsWith(a[i].name, suffix) {
        return Some(i);
      }
      i := i + 1;
    }
    return None;
  }

  /** Line 79: every member but the two targets, in directory order, re-read by its name. */
  method CopyOthers(a: Archive, d: nat, c: Option<nat>) returns (out: Archive)
    ensures out == Copied(a, d, c)
  {
    out := [];
    var i := 0;
    while i < |a|
      invariant i <= |a|
      invariant out == Pick(Reread(a), i, d, c)
    {
      if !(i == d || c == Some(i)) {
        out := out + [Part(a[i].name, Read(a, a[i].name))];
      }
      i := i + 1;
    }
  }

  /** Lines 47-79: write the scrubbed document, the scrubbed comments, then every other member. */
  method Transcode(a: Archive, mode: Mode) returns (r: Result<Archive, Error>)
    ensures r == Transcoded(a, mode)
  {
    var d := FindFirst(a, DocumentSuffix);
    if d.None? {
      return Failure(MandatoryPartMissing);
    }
    var out := [DocumentOut(a, d.value)];
    var c := FindFirst(a, CommentsSuffix);
    if c.Some? {
      var k := c.value;
      var data := ScrubComments(Read(a, a[k].name), mode);
      if data.None? {
        return Failure(MaskFailed);
      }
      out := out + [Part(a[k].name, data.value)];
    }
    assert out == [DocumentOut(a, d.value)] + CommentsOut(a, c, mode);
    var rest := CopyOthers(a, d.value, c);
    r := Success(out + rest);
  }

  // ---------------------------------------------------------------------------
  // Picking the members to copy

  /** How many of the two targets lie before index `n`. */
  function TargetsBefore(n: nat, d: nat, c: Option<nat>): nat {
    (if d < n then 1 else 0) + (if c.Some? && c.value < n then 1 else 0)
  }

  /** One entry per non-target index, in order: the entry at index `i` lands at `i - TargetsBefore(i)`. */
  lemma {:induction false} PickLayout<T>(xs: seq<T>, n: nat, d: nat, c: Option<nat>)
    requires n <= |xs| && c != Some(d)
    ensures |Pick(xs, n, d, c)| == n - TargetsBefore(n, d, c)
    ensures forall i :: 0 <= i < n && !Target(i, d, c) ==> Pick(xs, n, d, c)[i - TargetsBefore(i, d, c)] == xs[i]
    decreases n
  {
    if n > 0 {
      PickLayout(xs, n - 1, d, c);
      forall i | 0 <= i < n && !Target(i, d, c)
        ensures Pick(xs, n, d, c)[i - TargetsBefore(i, d, c)] == xs[i]
      {
        if i < n - 1 {
          assert TargetsBefore(i, d, c) <= TargetsBefore(n - 1, d, c);
        }
      }
    }
  }

  lemma NamesAppend(x: Archive, y: Archive)
    ensures Names(x + y) == Names(x) + Names(y)
  {
  }

  lemma PrefixNames(a: Archive, n: nat)
    requires 0 < n <= |a|
    ensures multiset(Names(a[..n])) == multiset(Names(a[..n - 1])) + multiset{a[n - 1].name}
  {
    assert a[..n] == a[..n - 1] + [a[n - 1]];
    NamesAppend(a[..n - 1], [a[n - 1]]);
  }

  /** Picking members and taking their names commute. */
  lemma {:induction false} PickNames(a: Archive, n: nat, d: nat, c: Option<nat>)
    requires n <= |a|
    ensures Names(Pick(a, n, d, c)) == Pick(Names(a), n, d, c)
    decreases n
  {
    if n > 0 {
      PickNames(a, n - 1, d, c);
      var last := if Target(n - 1, d, c) then [] else [a[n - 1]];
      NamesAppend(Pick(a, n - 1, d, c), last);
      assert Names(last) == if Target(n - 1, d, c) then [] else [Names(a)[n - 1]];
    }
  }

  lemma RereadNames(a: Archive)
    ensures Names(Reread(a)) == Names(a)
  {
  }

  /** The entries at the targets that lie before index `n`. */
  function TargetEntries<T>(xs: seq<T>, n: nat, d: nat, c: Option<nat>): multiset<T>
    requires d < |xs| && (c.Some? ==> c.value < |xs|)
  {
    (if d < n then multiset{xs[d]} else multiset{}) +
    (if c.Some? && c.value < n then multiset{xs[c.value]} else multiset{})
  }

  lemma TargetEntriesStep<T>(xs: seq<T>, n: nat, d: nat, c: Option<nat>)
    requires 0 < n <= |xs| && d < |xs| && (c.Some? ==> c.value < |xs|) && c != Some(d)
    ensures TargetEntries(xs, n, d, c) ==
      TargetEntries(xs, n - 1, d, c) + (if Target(n - 1, d, c) then multiset{xs[n - 1]} else multiset{})
  {
  }

  /** One more entry, counted on exactly one of two sides. */
  lemma CountStep<T>(k0: seq<T>, k1: seq<T>, n0: seq<T>, n1: seq<T>,
                     t0: multiset<T>, t1: multiset<T>, x: T, b: bool)
    requires multiset(k0) + t0 == multiset(n0)
    requires k1 == k0 + (if b then [] else [x])
    requires t1 == t0 + (if b then multiset{x} else multiset{})
    requires n1 == n0 + [x]
    ensures multiset(k1) + t1 == multiset(n1)
  {
    if b {
      assert k1 == k0;
    } else {
      assert t1 == t0;
    }
  }

  lemma PrefixStep<T>(xs: seq<T>, n: nat)
    requires 0 < n <= |xs|
    ensures xs[..n] == xs[..n - 1] + [xs[n - 1]]
  {
  }

  /** The picked entries and the target entries together are all the entries before `n`. */
  lemma {:induction false} PickCount<T>(xs: seq<T>, n: nat, d: nat, c: Option<nat>)
    requires n <= |xs| && d < |xs| && (c.Some? ==> c.value < |xs|) && c != Some(d)
    ensures multiset(Pick(xs, n, d, c)) + TargetEntries(xs, n, d, c) == multiset(xs[..n])
    decreases n
  {
    if n > 0 {
      PickCount(xs, n - 1, d, c);
      PickCountStep(xs, n, d, c);
    }
  }

  lemma PickCountStep<T>(xs: seq<T>, n: nat, d: nat, c: Option<nat>)
    requires 0 < n <= |xs| && d < |xs| && (c.Some? ==> c.value < |xs|) && c != Some(d)
    requires multiset(Pick(xs, n - 1, d, c)) + TargetEntries(xs, n - 1, d, c) == multiset(xs[..n - 1])
    ensures multiset(Pick(xs, n, d, c)) + TargetEntries(xs, n, d, c) == multiset(xs[..n])
  {
    TargetEntriesStep(xs, n, d, c);
    PrefixStep(xs, n);
    CountStep(Pick(xs, n - 1, d, c), Pick(xs, n, d, c), xs[..n - 1], xs[..n],
      TargetEntries(xs, n - 1, d, c), TargetEntries(xs, n, d, c), xs[n - 1], Target(n - 1, d, c));
  }

  // ---------------------------------------------------------------------------
  // What the transcoder promises

  /** No name ends in both suffixes: they have the same length and differ. */
  lemma SuffixesExclusive(name: string)
    ensures !(EndsWith(name, DocumentSuffix) && EndsWith(name, CommentsSuffix))
  {
    assert DocumentSuffix[0] != CommentsSuffix[0];
  }

  /** The document and the comments member are never the same member (`ind_doc != ind_comments`). */
  lemma TargetsDistinct(a: Archive)
    ensures FirstEndingWith(a, DocumentSuffix).Some? && FirstEndingWith(a, CommentsSuffix).Some? ==>
      FirstEndingWith(a, DocumentSuffix).value != FirstEndingWith(a, CommentsSuffix).value
  {
    var d := FirstEndingWith(a, DocumentSuffix);
    if d.Some? {
      SuffixesExclusive(a[d.value].name);
    }
  }

  /**
    Transcoding stops for want of a document member exactly when no member
    name ends in `document.xml` (`list.index(True)` raising); it stops in the
    masking step exactly when there is a document member and masking fails on
    the comments member; a missing `comments.xml` is no failure, and erasing
    fails only for want of a document member.
  */
  lemma TranscodeFails(a: Archive, mode: Mode)
    ensures Transcoded(a, mode) == Failure(MandatoryPartMissing) <==>
      forall i :: 0 <= i < |a| ==> !EndsWith(a[i].name, DocumentSuffix)
    ensures Transcoded(a, mode) == Failure(MaskFailed) <==>
      FirstEndingWith(a, DocumentSuffix).Some? && CommentsFail(a, FirstEndingWith(a, CommentsSuffix), mode)
    ensures mode.Erase? ==>
      (Transcoded(a, mode).Failure? <==> forall i :: 0 <= i < |a| ==> !EndsWith(a[i].name, DocumentSuffix))
  {
    if FirstEndingWith(a, DocumentSuffix).Some? {
      assert Transcoded(a, mode) != Failure(MandatoryPartMissing);
    }
  }

  lemma TranscodedSplit(a: Archive, mode: Mode, d: nat, c: Option<nat>)
    requires FirstEndingWith(a, DocumentSuffix) == Some(d) && FirstEndingWith(a, CommentsSuffix) == c
    ensures Transcoded(a, mode) ==
      if CommentsFail(a, c, mode) then Failure(MaskFailed)
      else Success([DocumentOut(a, d)] + CommentsOut(a, c, mode) + Copied(a, d, c))
  {
  }

  lemma HeadNames(a: Archive, d: nat, c: Option<nat>, mode: Mode)
    requires d < |a| && (c.Some? ==> c.value < |a|) && !CommentsFail(a, c, mode)
    ensures Names([DocumentOut(a, d)] + CommentsOut(a, c, mode)) ==
      [a[d].name] + (if c.Some? then [a[c.value].name] else [])
  {
    var doc := [DocumentOut(a, d)];
    NamesAppend(doc, CommentsOut(a, c, mode));
    assert Names(doc) == [a[d].name];
    match c
    case None =>
      assert Names(CommentsOut(a, c, mode)) == [];
    case Some(k) =>
      assert Names(CommentsOut(a, c, mode)) == [a[k].name];
  }

  lemma HeadCount(ns: seq<string>, d: nat, c: Option<nat>, kept: seq<string>)
    requires d < |ns| && (c.Some? ==> c.value < |ns|)
    requires multiset(kept) + TargetEntries(ns, |ns|, d, c) == multiset(ns[..|ns|])
    ensures multiset([ns[d]] + (if c.Some? then [ns[c.value]] else []) + kept) == multiset(ns)
  {
    assert ns[..|ns|] == ns;
  }

  /** The output has the input's member names, each as often as before: no member is added, lost or renamed. */
  lemma TranscodeNames(a: Archive, mode: Mode)
    requires Transcoded(a, mode).Success?
    ensures |Transcoded(a, mode).value| == |a|
    ensures multiset(Names(Transcoded(a, mode).value)) == multiset(Names(a))
  {
    var d := FirstEndingWith(a, DocumentSuffix).value;
    var c := FirstEndingWith(a, CommentsSuffix);
    var ns := Names(a);
    TargetsDistinct(a);
    var head := [DocumentOut(a, d)] + CommentsOut(a, c, mode);
    var rest := Copied(a, d, c);
    TranscodedSplit(a, mode, d, c);
    NamesAppend(head, rest);
    HeadNames(a, d, c, mode);
    PickNames(Reread(a), |a|, d, c);
    RereadNames(a);
    PickCount(ns, |a|, d, c);
    HeadCount(ns, d, c, Pick(ns, |a|, d, c));
    var out := Transcoded(a, mode).value;
    assert |multiset(Names(out))| == |Names(out)|;
  }

  /** Where the non-target member at index `i` lands in the output. */
  function Slot(i: nat, d: nat, c: Option<nat>): int {
    (if c.Some? then 2 else 1) + i - TargetsBefore(i, d, c)
  }

  /** Behind a head of one or two scrubbed members, the copied member from index `i` sits at `Slot(i)`. */
  lemma ShiftedCopies(a: Archive, head: Archive, d: nat, c: Option<nat>)
    requires d < |a| && (c.Some? ==> c.value < |a|) && c != Some(d)
    requires |head| == (if c.Some? then 2 else 1)
    ensures var out := head + Copied(a, d, c);
      |out| == |a| &&
      forall i :: 0 <= i < |a| && !Target(i, d, c) ==>
        0 <= Slot(i, d, c) < |out| && out[Slot(i, d, c)] == Part(a[i].name, Read(a, a[i].name))
  {
    var xs := Reread(a);
    PickLayout(xs, |a|, d, c);
    var rest := Copied(a, d, c);
    var out := head + rest;
    assert TargetsBefore(|a|, d, c) == |head|;
    forall i | 0 <= i < |a| && !Target(i, d, c)
      ensures 0 <= Slot(i, d, c) < |out| && out[Slot(i, d, c)] == Part(a[i].name, Read(a, a[i].name))
    {
      assert TargetsBefore(i, d, c) <= i;
      assert i - TargetsBefore(i, d, c) < |a| - |head|;
      assert out[Slot(i, d, c)] == rest[i - TargetsBefore(i, d, c)] == xs[i];
    }
  }

  /**
    The output is the scrubbed document member, then the scrubbed comments
    member if there is one, then every other member in directory order, each
    written under its own name with the bytes stored under that name.
  */
  lemma TranscodeLayout(a: Archive, mode: Mode, d: nat, c: Option<nat>)
    requires FirstEndingWith(a, DocumentSuffix) == Some(d) && FirstEndingWith(a, CommentsSuffix) == c
    ensures Transcoded(a, mode).Success? <==> !CommentsFail(a, c, mode)
    ensures Transcoded(a, mode).Success? ==> var out := Transcoded(a, mode).value;
      |out| == |a| &&
      out[0] == Part(a[d].name, ScrubDocument(Read(a, a[d].name))) &&
      (c.Some? ==>
        out[1].name == a[c.value].name && ScrubComments(Read(a, a[c.value].name), mode) == Some(out[1].data)) &&
      forall i :: 0 <= i < |a| && !Target(i, d, c) ==>
        0 <= Slot(i, d, c) < |out| && out[Slot(i, d, c)] == Part(a[i].name, Read(a, a[i].name))
  {
    TargetsDistinct(a);
    TranscodedSplit(a, mode, d, c);
    if !CommentsFail(a, c, mode) {
      ShiftedCopies(a, [DocumentOut(a, d)] + CommentsOut(a, c, mode), d, c);
    }
  }

  /**
    With distinct member names, every member other than the first
    `document.xml` and the first `comments.xml` (a second `document.xml`
    included) is written byte for byte as it was, in its original order, and
    the two targets are scrubbed from their own bytes.
  */
  lemma TranscodeUntouched(a: Archive, mode: Mode, d: nat, c: Option<nat>)
    requires DistinctNames(a)
    requires FirstEndingWith(a, DocumentSuffix) == Some(d) && FirstEndingWith(a, CommentsSuffix) == c
    ensures Transcoded(a, mode).Success? <==> !(c.Some? && ScrubComments(a[c.value].data, mode).None?)
    ensures Transcoded(a, mode).Success? ==> var out := Transcoded(a, mode).value;
      out[0] == Part(a[d].name, ScrubDocument(a[d].data)) &&
      (c.Some? ==> out[1].name == a[c.value].name && ScrubComments(a[c.value].data, mode) == Some(out[1].data)) &&
      forall i :: 0 <= i < |a| && !Target(i, d, c) ==> 0 <= Slot(i, d, c) < |out| && out[Slot(i, d, c)] == a[i]
  {
    TranscodeLayout(a, mode, d, c);
    ReadOwn(a, d);
    if c.Some? {
      ReadOwn(a, c.value);
    }
    forall i | 0 <= i < |a| && !Target(i, d, c)
      ensures Part(a[i].name, Read(a, a[i].name)) == a[i]
    {
      ReadOwn(a, i);
    }
  }

  /**
    The scrubbed members hold no filled-in author and no filled-in date: the
    document always, the comments member unless its dates are masked.
  */
  lemma TranscodeScrubs(a: Archive, mode: Mode)
    requires Transcoded(a, mode).Success?
    ensures var out := Transcoded(a, mode).value;
      Clean(AuthorRule, out[0].data) && Clean(DateRule, out[0].data) &&
      (FirstEndingWith(a, CommentsSuffix).Some? && mode.Erase? ==>
        Clean(AuthorRule, out[1].data) && Clean(DateRule, out[1].data))
  {
    var d := FirstEndingWith(a, DocumentSuffix).value;
    var c := FirstEndingWith(a, CommentsSuffix);
    TranscodeLayout(a, mode, d, c);
    DocumentScrubbed(Read(a, a[d].name));
    if c.Some? && mode.Erase? {
      DocumentScrubbed(Read(a, a[c.value].name));
    }
  }

  // ---------------------------------------------------------------------------
  // Running the tool on its own output

  lemma {:induction false} DistinctCounts(y: Archive)
    requires DistinctNames(y)
    ensures forall n :: multiset(Names(y))[n] <= 1
    decreases |y|
  {
    if y != [] {
      var p := y[..|y| - 1];
      DistinctCounts(p);
      PrefixNames(y, |y|);
      assert y[..|y|] == y;
      assert y[|y| - 1].name !in Names(p);
    }
  }

  lemma TwoCopies(x: Archive, i: nat, j: nat)
    requires i < j < |x| && x[i].name == x[j].name
    ensures multiset(Names(x))[x[i].name] >= 2
  {
    var n := x[i].name;
    assert x == x[..j] + x[j..];
    NamesAppend(x[..j], x[j..]);
    assert Names(x[..j])[i] == n;
    assert Names(x[j..])[0] == n;
  }

  lemma DistinctFromCounts(x: Archive)
    requires forall n :: multiset(Names(x))[n] <= 1
    ensures DistinctNames(x)
  {
    forall i, j | 0 <= i < j < |x|
      ensures x[i].name != x[j].name
    {
      if x[i].name == x[j].name {
        TwoCopies(x, i, j);
      }
    }
  }

  lemma NameFrom(x: Archive, y: Archive, i: nat)
    requires multiset(Names(x)) == multiset(Names(y)) && i < |x|
    ensures exists j :: 0 <= j < |y| && y[j].name == x[i].name
  {
    assert Names(x)[i] == x[i].name;
    assert x[i].name in multiset(Names(y));
  }

  /** With distinct names, every member re-read by its name is the member itself. */
  lemma RereadOwn(b: Archive)
    requires DistinctNames(b)
    ensures Reread(b) == b
  {
    forall i | 0 <= i < |b|
      ensures Reread(b)[i] == b[i]
    {
      ReadOwn(b, i);
    }
  }

  /** When the targets are the first `h` indices, picking keeps exactly the entries from `h` on. */
  lemma {:induction false} PickAfterHead<T>(xs: seq<T>, n: nat, h: nat)
    requires 1 <= h <= 2 && h <= n <= |xs|
    ensures Pick(xs, n, 0, if h == 2 then Some(1) else None) == xs[h..n]
    decreases n
  {
    var c := if h == 2 then Some(1) else None;
    if n == h {
      assert Pick(xs, 1, 0, c) == Pick(xs, 0, 0, c) + [];
      if h == 2 {
        assert Pick(xs, 2, 0, c) == Pick(xs, 1, 0, c) + [];
      }
    } else {
      PickAfterHead(xs, n - 1, h);
      assert xs[h..n] == xs[h..n - 1] + [xs[n - 1]];
    }
  }

  /** The output of an archive with distinct names has distinct names again. */
  lemma OutputDistinct(a: Archive, mode: Mode)
    requires DistinctNames(a) && Transcoded(a, mode).Success?
    ensures DistinctNames(Transcoded(a, mode).value)
  {
    TranscodeNames(a, mode);
    DistinctCounts(a);
    DistinctFromCounts(Transcoded(a, mode).value);
  }

  /** In the output, the first document member is at index 0 and the first comments member, if any, at index 1. */
  lemma OutputTargets(a: Archive, mode: Mode)
    requires Transcoded(a, mode).Success?
    ensures var out := Transcoded(a, mode).value;
      |out| >= (if FirstEndingWith(a, CommentsSuffix).Some? then 2 else 1) &&
      FirstEndingWith(out, DocumentSuffix) == Some(0) &&
      FirstEndingWith(out, CommentsSuffix) == (if FirstEndingWith(a, CommentsSuffix).Some? then Some(1) else None)
  {
    var d := FirstEndingWith(a, DocumentSuffix).value;
    var c := FirstEndingWith(a, CommentsSuffix);
    var out := Transcoded(a, mode).value;
    TargetsDistinct(a);
    TranscodeLayout(a, mode, d, c);
    TranscodeNames(a, mode);
    SuffixesExclusive(out[0].name);
    if c.None? {
      forall i | 0 <= i < |out|
        ensures !EndsWith(out[i].name, CommentsSuffix)
      {
        NameFrom(out, a, i);
      }
    } else {
      assert |out| >= 2;
    }
  }

  /** The scrubbed members of an erased output are fixed points of erasing. */
  lemma HeadsSettled(a: Archive)
    requires Transcoded(a, Erase).Success?
    ensures var out := Transcoded(a, Erase).value;
      ScrubDocument(out[0].data) == out[0].data &&
      (FirstEndingWith(a, CommentsSuffix).Some? ==> ScrubComments(out[1].data, Erase) == Some(out[1].data))
  {
    var d := FirstEndingWith(a, DocumentSuffix).value;
    var c := FirstEndingWith(a, CommentsSuffix);
    TranscodeLayout(a, Erase, d, c);
    DocumentIdempotent(Read(a, a[d].name));
    if c.Some? {
      DocumentIdempotent(Read(a, a[c.value].name));
    }
  }

  /** Scrubbed heads that are already fixed points of erasing are written back unchanged. */
  lemma HeadFixed(b: Archive, h: nat)
    requires DistinctNames(b) && 1 <= h <= 2 && h <= |b|
    requires ScrubDocument(b[0].data) == b[0].data
    requires h == 2 ==> ScrubComments(b[1].data, Erase) == Some(b[1].data)
    ensures [DocumentOut(b, 0)] + CommentsOut(b, if h == 2 then Some(1) else None, Erase) == b[..h]
  {
    ReadOwn(b, 0);
    if h == 2 {
      ReadOwn(b, 1);
    }
  }

  lemma CopiedRest(b: Archive, h: nat)
    requires DistinctNames(b) && 1 <= h <= 2 && h <= |b|
    ensures Copied(b, 0, if h == 2 then Some(1) else None) == b[h..]
  {
    RereadOwn(b);
    PickAfterHead(b, |b|, h);
    assert b[h..|b|] == b[h..];
  }

  lemma RejoinedOutput(b: Archive, h: nat, head: Archive, rest: Archive)
    requires h <= |b| && head == b[..h] && rest == b[h..]
    requires Transcoded(b, Erase) == Success(head + rest)
    ensures Transcoded(b, Erase) == Success(b)
  {
    assert b[..h] + b[h..] == b;
  }

  /** An archive laid out as the transcoder writes it, with settled heads, is its own output. */
  lemma SettledArchive(b: Archive, h: nat)
    requires DistinctNames(b) && 1 <= h <= 2 && h <= |b|
    requires FirstEndingWith(b, DocumentSuffix) == Some(0)
    requires FirstEndingWith(b, CommentsSuffix) == if h == 2 then Some(1) else None
    requires [DocumentOut(b, 0)] + CommentsOut(b, if h == 2 then Some(1) else None, Erase) == b[..h]
    ensures Transcoded(b, Erase) == Success(b)
  {
    var c := if h == 2 then Some(1) else None;
    var head := [DocumentOut(b, 0)] + CommentsOut(b, c, Erase);
    var rest := Copied(b, 0, c);
    CopiedRest(b, h);
    assert Transcoded(b, Erase) == Success(head + rest) by {
      TranscodedSplit(b, Erase, 0, c);
    }
    RejoinedOutput(b, h, head, rest);
  }

  /**
    Erasing is idempotent on whole archives: run on its own output, the
    transcoder writes the same members, in the same order, with the same bytes.
  */
  lemma TranscodeIdempotent(a: Archive)
    requires DistinctNames(a) && Transcoded(a, Erase).Success?
    ensures Transcoded(Transcoded(a, Erase).value, Erase) == Transcoded(a, Erase)
  {
    var out := Transcoded(a, Erase).value;
    OutputDistinct(a, Erase);
    OutputTargets(a, Erase);
    HeadsSettled(a);
    HeadFixed(out, if FirstEndingWith(a, CommentsSuffix).Some? then 2 else 1);
    SettledArchive(out, if FirstEndingWith(a, CommentsSuffix).Some? then 2 else 1);
  }
}

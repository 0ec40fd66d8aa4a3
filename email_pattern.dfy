// The e-mail pattern that registration and login both test,
//   /^\w+([\.-]?\w+)*@\w+([\.-]?\w+)*(\.\w{2,3})+$/
// written out as predicates over strings, one per part of the expression.
module EmailPattern {

  /** `\w` of a regular expression without the `u` flag. */
  predicate IsWordChar(c: char)
  {
    ('a' <= c <= 'z') || ('A' <= c <= 'Z') || ('0' <= c <= '9') || c == '_'
  }

  predicate IsSeparator(c: char)
  {
    c == '.' || c == '-'
  }

  /** `(\w|[\.-]\w)*`: what may follow the first character of `\w+([\.-]?\w+)*`
      (the two expressions denote the same language). */
  predicate WordTail(t: string)
    decreases |t|
  {
    t == []
    || (IsWordChar(t[0]) && WordTail(t[1..]))
    || (|t| >= 2 && IsSeparator(t[0]) && IsWordChar(t[1]) && WordTail(t[2..]))
  }

  /** `\w+([\.-]?\w+)*`: word characters, single dots or dashes between them. */
  predicate DottedWord(t: string)
  {
    |t| > 0 && IsWordChar(t[0]) && WordTail(t[1..])
  }

  /** `(\.\w{2,3})+`: one or more labels of two or three word characters,
      each after a dot. */
  predicate Labels(t: string)
    decreases |t|
  {
    |t| >= 3 && t[0] == '.' && IsWordChar(t[1]) && IsWordChar(t[2])
    && ((|t| == 3 || Labels(t[3..]))
        || (|t| >= 4 && IsWordChar(t[3]) && (|t| == 4 || Labels(t[4..]))))
  }

  /** `\w+([\.-]?\w+)*(\.\w{2,3})+`, the part after '@': some split point at
      or after `from` leaves a dotted word before it and labels after it. */
  predicate DomainFrom(d: string, from: nat)
    decreases |d| - from
  {
    from < |d| && ((DottedWord(d[..from]) && Labels(d[from..])) || DomainFrom(d, from + 1))
  }

  /** Some position at or after `from` holds an '@' with a dotted word before
      it and a domain after it. */
  predicate SplitFrom(s: string, from: nat)
    decreases |s| - from
  {
    from < |s| && ((s[from] == '@' && DottedWord(s[..from]) && DomainFrom(s[from + 1..], 1)) || SplitFrom(s, from + 1))
  }

  /** The whole pattern, anchored at both ends: a local part, '@', a domain
      and its labels, trying every split point as the regular expression's
      backtracking does. */
  predicate Matches(s: string)
  {
    SplitFrom(s, 1)
  }

  /** The last `k` characters of `s` are word characters and a dot precedes them. */
  predicate EndsWithLabelOf(s: string, k: nat)
  {
    k < |s| && s[|s| - k - 1] == '.' && forall m :: |s| - k <= m < |s| ==> IsWordChar(s[m])
  }

  /** `s` ends in a dot followed by two or three word characters. */
  predicate EndsWithShortLabel(s: string)
  {
    EndsWithLabelOf(s, 2) || EndsWithLabelOf(s, 3)
  }

  lemma {:induction false} WordTailHasNoAt(t: string)
    requires WordTail(t)
    ensures '@' !in t
    decreases |t|
  {
    if t != [] {
      if IsWordChar(t[0]) && WordTail(t[1..]) {
        WordTailHasNoAt(t[1..]);
        assert t == [t[0]] + t[1..];
      } else {
        WordTailHasNoAt(t[2..]);
        assert t == [t[0], t[1]] + t[2..];
      }
    }
  }

  lemma DottedWordHasNoAt(t: string)
    requires DottedWord(t)
    ensures '@' !in t
  {
    WordTailHasNoAt(t[1..]);
    assert t == [t[0]] + t[1..];
  }

  /** Every string of `(\.\w{2,3})+` is free of '@' and ends in a short label. */
  lemma {:induction false} LabelsShape(t: string)
    requires Labels(t)
    ensures '@' !in t
    ensures EndsWithShortLabel(t)
    decreases |t|
  {
    if |t| == 3 {
      assert EndsWithLabelOf(t, 2);
    } else if |t| == 4 && IsWordChar(t[3]) {
      assert EndsWithLabelOf(t, 3);
    } else {
      var n := if |t| > 3 && Labels(t[3..]) then 3 else 4;
      var rest := t[n..];
      LabelsShape(rest);
      assert t == t[..n] + rest;
      assert '@' !in t[..n];
      var k := if EndsWithLabelOf(rest, 2) then 2 else 3;
      assert t[|t| - k - 1] == rest[|rest| - k - 1];
      forall m | |t| - k <= m < |t| ensures IsWordChar(t[m]) {
        assert t[m] == rest[m - n];
      }
      assert EndsWithLabelOf(t, k);
    }
  }

  /** Every domain is free of '@' and ends in a short label. */
  lemma {:induction false} DomainShape(d: string, from: nat)
    requires DomainFrom(d, from)
    ensures '@' !in d
    ensures EndsWithShortLabel(d)
    decreases |d| - from
  {
    if DottedWord(d[..from]) && Labels(d[from..]) {
      var t := d[from..];
      DottedWordHasNoAt(d[..from]);
      LabelsShape(t);
      assert d == d[..from] + t;
      var k := if EndsWithLabelOf(t, 2) then 2 else 3;
      assert d[|d| - k - 1] == t[|t| - k - 1];
      forall m | |d| - k <= m < |d| ensures IsWordChar(d[m]) {
        assert d[m] == t[m - from];
      }
      assert EndsWithLabelOf(d, k);
    } else {
      DomainShape(d, from + 1);
    }
  }

  /** `s` holds '@' at position `i` and nowhere else. */
  predicate OnlyAtAt(s: string, i: int)
  {
    0 <= i < |s| && s[i] == '@' && forall j :: 0 <= j < |s| && j != i ==> s[j] != '@'
  }

  /** An address matching from any split point holds exactly one '@' and ends
      in a short label. */
  lemma {:induction false} SplitShape(s: string, from: nat)
    requires SplitFrom(s, from)
    ensures exists i :: OnlyAtAt(s, i)
    ensures EndsWithShortLabel(s)
    decreases |s| - from
  {
    if s[from] == '@' && DottedWord(s[..from]) && DomainFrom(s[from + 1..], 1) {
      var d := s[from + 1..];
      DottedWordHasNoAt(s[..from]);
      DomainShape(d, 1);
      forall j | 0 <= j < |s| && j != from ensures s[j] != '@' {
        if j < from {
          assert s[j] == s[..from][j];
        } else {
          assert s[j] == d[j - from - 1];
        }
      }
      assert OnlyAtAt(s, from);
      var k := if EndsWithLabelOf(d, 2) then 2 else 3;
      assert s[|s| - k - 1] == d[|d| - k - 1];
      forall m | |s| - k <= m < |s| ensures IsWordChar(s[m]) {
        assert s[m] == d[m - from - 1];
      }
      assert EndsWithLabelOf(s, k);
    } else {
      SplitShape(s, from + 1);
    }
  }

  /** A matching address holds exactly one '@'. */
  lemma MatchHasOneAt(s: string)
    requires Matches(s)
    ensures exists i :: OnlyAtAt(s, i)
  {
    SplitShape(s, 1);
  }

  /** A matching address ends in a dot and two or three word characters. */
  lemma MatchEndsWithShortLabel(s: string)
    requires Matches(s)
    ensures EndsWithShortLabel(s)
  {
    SplitShape(s, 1);
  }

  /** A plain address is accepted, and so is one with two labels. */
  lemma AcceptedExamples()
    ensures Matches("a@b.com")
    ensures Matches("a@b.co.in")
  {
    var s := "a@b.com";
    assert DottedWord(s[..1]);
    assert DottedWord(s[2..][..1]);
    assert Labels(s[2..][1..]);
    assert DomainFrom(s[2..], 1);
    assert SplitFrom(s, 1);
    var e := "a@b.co.in";
    assert DottedWord(e[..1]);
    assert DottedWord(e[2..][..1]);
    assert Labels(e[2..][1..][3..]);
    assert Labels(e[2..][1..]);
    assert DomainFrom(e[2..], 1);
    assert SplitFrom(e, 1);
  }

  /** A top-level label of one character is refused. */
  lemma RejectsOneLetterLabel()
    ensures !Matches("a@b.c")
  {
    if Matches("a@b.c") {
      MatchEndsWithShortLabel("a@b.c");
    }
  }

  /** A top-level label of four characters is refused. */
  lemma RejectsFourLetterLabel()
    ensures !Matches("a@b.info")
  {
    assert !EndsWithLabelOf("a@b.info", 2);
    assert !EndsWithLabelOf("a@b.info", 3);
    if Matches("a@b.info") {
      MatchEndsWithShortLabel("a@b.info");
    }
  }

  /** A second '@' is refused. */
  lemma RejectsTwoAts()
    ensures !Matches("a@b@c.com")
  {
    var s := "a@b@c.com";
    assert s[1] == '@' && s[3] == '@';
    assert forall i :: !OnlyAtAt(s, i);
    if Matches(s) {
      MatchHasOneAt(s);
    }
  }

  // --------------------------------------------------- backtracking cost

  /** The number of ways `([\.-]?\w+)*` can match all of `t`: each way is one
      path a backtracking matcher explores. */
  function TailParses(t: string): nat
    decreases |t|, 1
  {
    if t == [] then 1
    else (if IsSeparator(t[0]) then Runs(t[1..]) else 0) + Runs(t)
  }

  /** The number of ways `\w+([\.-]?\w+)*` can match all of `t`: the first
      run of word characters ends after the first character or goes on. */
  function Runs(t: string): nat
    decreases |t|, 0
  {
    if t == [] || !IsWordChar(t[0]) then 0
    else TailParses(t[1..]) + Runs(t[1..])
  }

  /** The counts are positive exactly on the strings the expressions denote. */
  lemma {:induction false} ParsesExactlyWhenMatching(t: string)
    ensures Runs(t) > 0 <==> DottedWord(t)
    ensures TailParses(t) > 0 <==> WordTail(t)
    decreases |t|
  {
    if t != [] {
      ParsesExactlyWhenMatching(t[1..]);
      if |t| >= 2 {
        ParsesExactlyWhenMatching(t[2..]);
      }
    }
  }

  function Pow2(n: nat): nat
  {
    if n == 0 then 1 else 2 * Pow2(n - 1)
  }

  /** A run of `n` word characters can be matched by `\w+([\.-]?\w+)*` in
      2^(n-1) ways: the matcher tries each of them when what follows fails,
      as the missing '@' of "aaa…a!" makes it. */
  lemma {:induction false} WordRunParsesExponentially(t: string)
    requires |t| >= 1 && forall i :: 0 <= i < |t| ==> IsWordChar(t[i])
    ensures Runs(t) == Pow2(|t| - 1)
    decreases |t|
  {
    if |t| > 1 {
      WordRunParsesExponentially(t[1..]);
      assert IsWordChar(t[1..][0]);
    }
  }

  /** `\w+([\.-]?\w+)*` decided in one pass from the end: `here` is whether
      the rest from position `j` is a WordTail, `next` the same from `j + 1`. */
  method ScanDottedWord(t: string) returns (ok: bool)
    ensures ok == DottedWord(t)
  {
    if t == [] {
      return false;
    }
    var j := |t|;
    var here, next := true, false;
    while j > 1
      invariant 1 <= j <= |t|
      invariant here == WordTail(t[j..])
      invariant j < |t| ==> next == WordTail(t[j + 1..])
    {
      j := j - 1;
      var tail := t[j..];
      assert tail[1..] == t[j + 1..];
      assert |tail| >= 2 ==> tail[2..] == t[j + 2..];
      here, next := (IsWordChar(t[j]) && here) || (j + 1 < |t| && IsSeparator(t[j]) && IsWordChar(t[j + 1]) && next), here;
    }
    assert t[1..] == t[j..];
    ok := IsWordChar(t[0]) && here;
  }

  // ------------------------------------------------------ one-pass decision

  /** `(\w|[\.-]\w)*` is closed under concatenation. */
  lemma {:induction false} WordTailConcat(x: string, y: string)
    requires WordTail(x) && WordTail(y)
    ensures WordTail(x + y)
    decreases |x|
  {
    if x != [] {
      if IsWordChar(x[0]) && WordTail(x[1..]) {
        WordTailConcat(x[1..], y);
        assert (x + y)[1..] == x[1..] + y;
      } else {
        WordTailConcat(x[2..], y);
        assert (x + y)[2..] == x[2..] + y;
      }
    } else {
      assert x + y == y;
    }
  }

  /** Every string of `(\.\w{2,3})+` is also a string of `(\w|[\.-]\w)*`. */
  lemma {:induction false} LabelsAreWordTail(t: string)
    requires Labels(t)
    ensures WordTail(t)
    decreases |t|
  {
    var n := if |t| == 3 || Labels(t[3..]) then 3 else 4;
    var rest := t[n..];
    if |t| > n {
      LabelsAreWordTail(rest);
    }
    assert WordTail(t[n..]);
    assert WordTail(t[2..]) by {
      if n == 4 {
        assert t[3..][1..] == t[4..];
      }
      assert t[2..][1..] == t[3..];
    }
  }

  /** The part of a `(\w|[\.-]\w)*` string before one of its separators is
      again such a string. */
  lemma {:induction false} WordTailBeforeSeparator(t: string, i: nat)
    requires WordTail(t) && i < |t| && IsSeparator(t[i])
    ensures WordTail(t[..i])
    decreases |t|
  {
    if i > 0 {
      if IsWordChar(t[0]) && WordTail(t[1..]) {
        WordTailBeforeSeparator(t[1..], i - 1);
        assert t[..i][1..] == t[1..][..i - 1];
      } else {
        WordTailBeforeSeparator(t[2..], i - 2);
        assert t[..i][2..] == t[2..][..i - 2];
      }
    }
  }

  /** `DomainFrom` tries every split point from `from` on. */
  lemma {:induction false} DomainFromSplit(d: string, from: nat)
    ensures DomainFrom(d, from) <==> exists j :: from <= j < |d| && DottedWord(d[..j]) && Labels(d[j..])
    decreases |d| - from
  {
    if from < |d| {
      DomainFromSplit(d, from + 1);
    }
  }

  /** `m` is a position of `d` from which `(\.\w{2,3})+` matches the rest. */
  predicate LabelsAt(d: string, m: nat)
  {
    m <= |d| && Labels(d[m..])
  }

  /** A dotted word followed by labels is a dotted word. */
  lemma WordThenLabels(d: string, j: nat)
    requires 1 <= j < |d| && DottedWord(d[..j]) && LabelsAt(d, j)
    ensures DottedWord(d)
  {
    LabelsAreWordTail(d[j..]);
    WordTailConcat(d[..j][1..], d[j..]);
    assert d[1..] == d[..j][1..] + d[j..];
  }

  /** The part of a dotted word before the labels is a dotted word. */
  lemma WordBeforeLabels(d: string, j: nat)
    requires 1 <= j < |d| && DottedWord(d) && LabelsAt(d, j)
    ensures DottedWord(d[..j])
  {
    assert d[j..][0] == '.';
    WordTailBeforeSeparator(d[1..], j - 1);
    assert d[..j][1..] == d[1..][..j - 1];
  }

  /** The domain part is a dotted word that ends in labels. */
  lemma DomainIsWordWithLabels(d: string)
    ensures DomainFrom(d, 1) <==> DottedWord(d) && exists j :: 1 <= j < |d| && LabelsAt(d, j)
  {
    DomainFromSplit(d, 1);
    if DomainFrom(d, 1) {
      var j :| 1 <= j < |d| && DottedWord(d[..j]) && Labels(d[j..]);
      assert LabelsAt(d, j);
      WordThenLabels(d, j);
    }
    if DottedWord(d) && exists j :: 1 <= j < |d| && LabelsAt(d, j) {
      var j :| 1 <= j < |d| && LabelsAt(d, j);
      WordBeforeLabels(d, j);
      assert DottedWord(d[..j]) && Labels(d[j..]);
    }
  }

  /** `SplitFrom` tries every position of '@' from `from` on. */
  lemma {:induction false} SplitFromAt(s: string, from: nat)
    ensures SplitFrom(s, from) <==>
            exists i :: from <= i < |s| && s[i] == '@' && DottedWord(s[..i]) && DomainFrom(s[i + 1..], 1)
    decreases |s| - from
  {
    if from < |s| {
      SplitFromAt(s, from + 1);
    }
  }

  /** The pattern splits an address at its first '@': no other split can
      leave a dotted word before it. */
  lemma MatchesAtFirstAt(s: string, at: nat)
    requires at < |s| && s[at] == '@' && forall k :: 0 <= k < at ==> s[k] != '@'
    ensures Matches(s) <==> DottedWord(s[..at]) && DomainFrom(s[at + 1..], 1)
  {
    SplitFromAt(s, 1);
    if Matches(s) {
      var i :| 1 <= i < |s| && s[i] == '@' && DottedWord(s[..i]) && DomainFrom(s[i + 1..], 1);
      DottedWordHasNoAt(s[..i]);
      assert i == at;
    }
  }

  /** Labels from position `j` on, read off the four positions after it. */
  lemma LabelsStep(d: string, j: nat)
    requires j < |d|
    ensures LabelsAt(d, j) <==>
            j + 3 <= |d| && d[j] == '.' && IsWordChar(d[j + 1]) && IsWordChar(d[j + 2])
            && ((j + 3 == |d| || LabelsAt(d, j + 3))
                || (j + 4 <= |d| && IsWordChar(d[j + 3]) && (j + 4 == |d| || LabelsAt(d, j + 4))))
  {
    var t := d[j..];
    if |t| >= 3 {
      assert t[3..] == d[j + 3..];
    }
    if |t| >= 4 {
      assert t[4..] == d[j + 4..];
    }
  }

  /** Whether some position from 1 on starts the labels of `d`, in one pass
      from the end that keeps the answers for the next four positions. */
  method ScanLabels(d: string) returns (found: bool)
    ensures found <==> exists m :: 1 <= m < |d| && LabelsAt(d, m)
  {
    if |d| == 0 {
      return false;
    }
    var j := |d|;
    var a, b, c, e := false, false, false, false;
    found := false;
    while j > 1
      invariant 1 <= j <= |d|
      invariant a == LabelsAt(d, j)
      invariant j + 1 <= |d| ==> b == LabelsAt(d, j + 1)
      invariant j + 2 <= |d| ==> c == LabelsAt(d, j + 2)
      invariant j + 3 <= |d| ==> e == LabelsAt(d, j + 3)
      invariant found <==> exists m :: j <= m < |d| && LabelsAt(d, m)
    {
      j := j - 1;
      LabelsStep(d, j);
      var here := j + 3 <= |d| && d[j] == '.' && IsWordChar(d[j + 1]) && IsWordChar(d[j + 2])
                  && ((j + 3 == |d| || c) || (j + 4 <= |d| && IsWordChar(d[j + 3]) && (j + 4 == |d| || e)));
      a, b, c, e := here, a, b, c;
      found := found || here;
    }
  }

  /** The domain part, `\w+([\.-]?\w+)*(\.\w{2,3})+`, decided without
      backtracking: a dotted word with labels starting after its first
      character. */
  method ScanDomain(d: string) returns (ok: bool)
    ensures ok == DomainFrom(d, 1)
  {
    var word := ScanDottedWord(d);
    var labels := ScanLabels(d);
    DomainIsWordWithLabels(d);
    ok := word && labels;
  }

  /** The whole pattern decided in time linear in the length of the address:
      find the first '@', then decide the local part and the domain each in
      one pass. */
  method ScanAddress(s: string) returns (ok: bool)
    ensures ok == Matches(s)
  {
    var at := 0;
    while at < |s| && s[at] != '@'
      invariant at <= |s| && forall k :: 0 <= k < at ==> s[k] != '@'
    {
      at := at + 1;
    }
    if at == |s| {
      if Matches(s) {
        MatchHasOneAt(s);
      }
      return false;
    }
    MatchesAtFirstAt(s, at);
    var local := ScanDottedWord(s[..at]);
    var domain := ScanDomain(s[at + 1..]);
    ok := local && domain;
  }
}

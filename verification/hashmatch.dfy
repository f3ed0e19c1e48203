/** `find_matching_combinations` of python.py: scan the characters of a text,
    record each one whose MD5 digest is a target under that digest, and stop as
    soon as every target has a character. MD5 itself is a parameter. */
module HashMatch {

  /** `md5_hash`: a string to its hex digest. */
  type Md5 = string -> string

  /** The digest of one scanned character. */
  function Digest(md5: Md5, c: char): string {
    md5([c])
  }

  /** The dictionary after a scan of `s` that never stops early: each target
      digest seen maps to the last character with that digest. */
  function Full(s: string, targets: set<string>, md5: Md5): (m: map<string, char>)
    ensures m.Keys <= targets
  {
    if s == [] then map[]
    else
      var m := Full(s[..|s| - 1], targets, md5);
      var c := s[|s| - 1];
      if Digest(md5, c) in targets then m[Digest(md5, c) := c] else m
  }

  /** The scan from the middle of the loop: `s` is what is left of the text and
      `acc` the dictionary so far. */
  function ScanFrom(s: string, targets: set<string>, md5: Md5, acc: map<string, char>): map<string, char>
    decreases |s|
  {
    if s == [] then acc
    else
      var h := Digest(md5, s[0]);
      if h in targets then
        var acc' := acc[h := s[0]];
        if |acc'| == |targets| then acc' else ScanFrom(s[1..], targets, md5, acc')
      else ScanFrom(s[1..], targets, md5, acc)
  }

  /** How many characters that scan examines before it returns. */
  function ConsumedFrom(s: string, targets: set<string>, md5: Md5, acc: map<string, char>): (n: nat)
    ensures n <= |s|
    decreases |s|
  {
    if s == [] then 0
    else
      var h := Digest(md5, s[0]);
      if h in targets then
        var acc' := acc[h := s[0]];
        if |acc'| == |targets| then 1 else 1 + ConsumedFrom(s[1..], targets, md5, acc')
      else 1 + ConsumedFrom(s[1..], targets, md5, acc)
  }

  /** The result of `find_matching_combinations(input, targets)`. */
  function Scan(input: string, targets: set<string>, md5: Md5): map<string, char> {
    ScanFrom(input, targets, md5, map[])
  }

  /** The number of characters `find_matching_combinations` examines. */
  function Consumed(input: string, targets: set<string>, md5: Md5): (n: nat)
    ensures n <= |input|
  {
    ConsumedFrom(input, targets, md5, map[])
  }

  /** The loop of python.py:12-19, with its early return. */
  method FindMatchingCombinations(input: string, targets: set<string>, md5: Md5) returns (matches: map<string, char>)
    ensures matches == Scan(input, targets, md5)
  {
    matches := map[];
    var i := 0;
    while i < |input|
      invariant i <= |input|
      invariant ScanFrom(input[i..], targets, md5, matches) == Scan(input, targets, md5)
    {
      assert input[i..][1..] == input[i + 1..];
      var charHash := Digest(md5, input[i]);
      if charHash in targets {
        matches := matches[charHash := input[i]];
        if |matches| == |targets| {
          return matches;
        }
      }
      i := i + 1;
    }
  }

  // ---- the early-returning scan is the full scan of a prefix ----

  /** The character after `p` updates the full-scan dictionary as the loop body does. */
  lemma FullSnoc(p: string, c: char, targets: set<string>, md5: Md5)
    ensures Full(p + [c], targets, md5)
            == if Digest(md5, c) in targets then Full(p, targets, md5)[Digest(md5, c) := c] else Full(p, targets, md5)
  {
    assert (p + [c])[..|p + [c]| - 1] == p;
  }

  /** One turn of the scan: it returns after `s[0]` exactly when that character
      completes the targets, and otherwise goes on with the updated dictionary. */
  lemma ScanFromStep(s: string, targets: set<string>, md5: Md5, acc: map<string, char>)
    requires s != []
    ensures var h := Digest(md5, s[0]);
            var acc' := if h in targets then acc[h := s[0]] else acc;
            if h in targets && |acc'| == |targets| then
              ScanFrom(s, targets, md5, acc) == acc' && ConsumedFrom(s, targets, md5, acc) == 1
            else
              ScanFrom(s, targets, md5, acc) == ScanFrom(s[1..], targets, md5, acc')
              && ConsumedFrom(s, targets, md5, acc) == 1 + ConsumedFrom(s[1..], targets, md5, acc')
  {
  }

  lemma PrefixShift(p: string, s: string, k: nat)
    requires s != [] && k <= |s| - 1
    ensures (p + [s[0]]) + s[1..][..k] == p + s[..k + 1]
  {
  }

  /** Scanning `s` with the dictionary of a full scan of `p` gives the dictionary of
      a full scan of `p` and of the part of `s` examined, and stops early only when
      that dictionary is complete. */
  predicate ScansAsFull(p: string, s: string, targets: set<string>, md5: Md5) {
    var n := ConsumedFrom(s, targets, md5, Full(p, targets, md5));
    && ScanFrom(s, targets, md5, Full(p, targets, md5)) == Full(p + s[..n], targets, md5)
    && (n < |s| ==> |Full(p + s[..n], targets, md5)| == |targets|)
  }

  lemma ScansAsFullStop(p: string, s: string, targets: set<string>, md5: Md5)
    requires s != [] && Digest(md5, s[0]) in targets && |Full(p + [s[0]], targets, md5)| == |targets|
    ensures ScansAsFull(p, s, targets, md5)
  {
    FullSnoc(p, s[0], targets, md5);
    ScanFromStep(s, targets, md5, Full(p, targets, md5));
    PrefixShift(p, s, 0);
  }

  lemma ScansAsFullGo(p: string, s: string, targets: set<string>, md5: Md5)
    requires s != [] && !(Digest(md5, s[0]) in targets && |Full(p + [s[0]], targets, md5)| == |targets|)
    requires ScansAsFull(p + [s[0]], s[1..], targets, md5)
    ensures ScansAsFull(p, s, targets, md5)
  {
    FullSnoc(p, s[0], targets, md5);
    ScanFromStep(s, targets, md5, Full(p, targets, md5));
    PrefixShift(p, s, ConsumedFrom(s[1..], targets, md5, Full(p + [s[0]], targets, md5)));
  }

  lemma {:induction false} ScanFromFull(p: string, s: string, targets: set<string>, md5: Md5)
    ensures ScansAsFull(p, s, targets, md5)
    decreases |s|
  {
    if s == [] {
      assert p + s[..0] == p;
    } else if Digest(md5, s[0]) in targets && |Full(p + [s[0]], targets, md5)| == |targets| {
      ScansAsFullStop(p, s, targets, md5);
    } else {
      ScanFromFull(p + [s[0]], s[1..], targets, md5);
      ScansAsFullGo(p, s, targets, md5);
    }
  }

  /** The result is the dictionary of a full scan of the examined prefix, and the
      scan stops before the end of the text only with every target matched. */
  lemma ScanIsFullPrefix(input: string, targets: set<string>, md5: Md5)
    ensures Scan(input, targets, md5) == Full(input[..Consumed(input, targets, md5)], targets, md5)
    ensures Consumed(input, targets, md5) < |input| ==> |Scan(input, targets, md5)| == |targets|
  {
    ScanFromFull([], input, targets, md5);
    assert [] + input[..Consumed(input, targets, md5)] == input[..Consumed(input, targets, md5)];
  }

  // ---- the full scan ----

  /** A digest is a key exactly when it is a target and some character of the
      scanned text has it. */
  lemma {:induction false} FullKeys(s: string, targets: set<string>, md5: Md5, h: string)
    ensures h in Full(s, targets, md5) <==> h in targets && exists j :: 0 <= j < |s| && Digest(md5, s[j]) == h
    decreases |s|
  {
    if s != [] {
      var front := s[..|s| - 1];
      FullKeys(front, targets, md5, h);
      if exists j :: 0 <= j < |s| && Digest(md5, s[j]) == h {
        var j :| 0 <= j < |s| && Digest(md5, s[j]) == h;
        if j < |front| {
          assert Digest(md5, front[j]) == h;
        }
      }
      if exists j :: 0 <= j < |front| && Digest(md5, front[j]) == h {
        var j :| 0 <= j < |front| && Digest(md5, front[j]) == h;
        assert Digest(md5, s[j]) == h;
      }
    }
  }

  /** The character kept for a digest is the last character of the scanned text
      with that digest: a later match overwrites an earlier one. */
  lemma {:induction false} FullLastWins(s: string, targets: set<string>, md5: Md5, h: string)
    requires h in Full(s, targets, md5)
    ensures exists j :: 0 <= j < |s| && s[j] == Full(s, targets, md5)[h] && Digest(md5, s[j]) == h
              && forall k :: j < k < |s| ==> Digest(md5, s[k]) != h
    decreases |s|
  {
    var n := |s| - 1;
    var front := s[..n];
    if Digest(md5, s[n]) == h {
      assert s[n] == Full(s, targets, md5)[h];
    } else {
      assert h in Full(front, targets, md5);
      FullLastWins(front, targets, md5, h);
      var j :| 0 <= j < |front| && front[j] == Full(front, targets, md5)[h] && Digest(md5, front[j]) == h
               && forall k :: j < k < |front| ==> Digest(md5, front[k]) != h;
      assert s[j] == front[j];
      forall k | j < k < |s| ensures Digest(md5, s[k]) != h {
        if k < n {
          assert s[k] == front[k];
        }
      }
    }
  }

  // ---- what python.py promises of the result ----

  lemma SubsetCardinality(a: set<string>, b: set<string>)
    requires a <= b
    ensures |a| <= |b|
    ensures |a| == |b| ==> a == b
  {
    assert b == a + (b - a);
    if |a| == |b| {
      assert |b - a| == 0;
    }
  }

  /** Every key is a target, each value is a character of the text whose digest is
      its key, the last such character before the scan stopped, and there are never
      more entries than targets. */
  lemma ScanSound(input: string, targets: set<string>, md5: Md5, h: string)
    ensures Scan(input, targets, md5).Keys <= targets
    ensures |Scan(input, targets, md5)| <= |targets|
    ensures h in Scan(input, targets, md5) ==>
      var n := Consumed(input, targets, md5);
      exists j :: 0 <= j < n && input[j] == Scan(input, targets, md5)[h] && Digest(md5, input[j]) == h
        && forall k :: j < k < n ==> Digest(md5, input[k]) != h
  {
    var n := Consumed(input, targets, md5);
    ScanIsFullPrefix(input, targets, md5);
    SubsetCardinality(Scan(input, targets, md5).Keys, targets);
    if h in Scan(input, targets, md5) {
      FullLastWins(input[..n], targets, md5, h);
      var j :| 0 <= j < n && input[..n][j] == Scan(input, targets, md5)[h] && Digest(md5, input[..n][j]) == h
               && forall k :: j < k < n ==> Digest(md5, input[..n][k]) != h;
      assert input[j] == input[..n][j];
      forall k | j < k < n ensures Digest(md5, input[k]) != h {
        assert input[k] == input[..n][k];
      }
    }
  }

  /** Every character of the text whose digest is a target has that digest as a
      key, whether or not the scan stopped early. */
  lemma ScanComplete(input: string, targets: set<string>, md5: Md5, j: nat)
    requires j < |input| && Digest(md5, input[j]) in targets
    ensures Digest(md5, input[j]) in Scan(input, targets, md5)
  {
    var n := Consumed(input, targets, md5);
    ScanIsFullPrefix(input, targets, md5);
    if n < |input| {
      SubsetCardinality(Scan(input, targets, md5).Keys, targets);
    } else {
      assert input[..n] == input;
      FullKeys(input, targets, md5, Digest(md5, input[j]));
    }
  }

  /** The scan stops before the end exactly when the last character it examined
      completed the set of targets. */
  lemma ScanStopsWhenFull(input: string, targets: set<string>, md5: Md5)
    ensures Consumed(input, targets, md5) < |input| ==> Scan(input, targets, md5).Keys == targets
  {
    ScanIsFullPrefix(input, targets, md5);
    SubsetCardinality(Scan(input, targets, md5).Keys, targets);
  }

  /** With no targets nothing matches and the whole text is examined. */
  lemma {:induction false} ScanNoTargets(s: string, md5: Md5, acc: map<string, char>)
    ensures ScanFrom(s, {}, md5, acc) == acc
    ensures ConsumedFrom(s, {}, md5, acc) == |s|
    decreases |s|
  {
    if s != [] {
      ScanNoTargets(s[1..], md5, acc);
    }
  }

  lemma ScanEmptyTargets(input: string, md5: Md5)
    ensures Scan(input, {}, md5) == map[]
    ensures Consumed(input, {}, md5) == |input|
  {
    ScanNoTargets(input, md5, map[]);
  }
}

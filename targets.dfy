/** The target list of `main`: the lines of the target file and the
    comma-separated `--domains` argument, each stripped, then deduplicated
    with `set` and lower-cased. */
module Targets {
  import opened Common
  import opened Strings
  import opened Seqs
  import opened RangeSources

  /** Entry by entry, the pieces are the targets padded with whitespace. */
  ghost predicate PaddedPieces(pieces: seq<string>, targets: seq<string>) {
    |pieces| == |targets| && forall k :: 0 <= k < |targets| ==> Padded(pieces[k], targets[k])
  }

  /** `get_domains`: the lines of the file, each stripped. A target has no
      whitespace at either end and no line break inside, and its line is
      the target with only whitespace added around it. */
  function FileTargets(text: string): (r: seq<string>)
    ensures |r| == |Lines(text)|
    ensures forall k :: 0 <= k < |r| ==> Stripped(r[k]) && '\n' !in r[k]
    ensures PaddedPieces(Lines(text), r)
  {
    var r := Map(Strip, Lines(text));
    LinesShape(text);
    forall k | 0 <= k < |r| ensures Stripped(r[k]) && Padded(Lines(text)[k], r[k]) && '\n' !in r[k] {
      var line := Lines(text)[k];
      StripStripped(line);
      StripPadded(line);
      var i: nat, j: nat :| StripsTo(line, r[k], i, j);
      NoBreakInside(line, r[k], i, j);
    }
    r
  }

  /** A stripped infix of a line that holds a newline at most at its end
      holds none. */
  lemma NoBreakInside(line: string, r: string, i: nat, j: nat)
    requires line != [] && '\n' !in line[..|line| - 1]
    requires StripsTo(line, r, i, j) && Stripped(r)
    ensures '\n' !in r
  {
    forall m | 0 <= m < |r| ensures r[m] != '\n' {
      if i + m < |line| - 1 {
        assert r[m] == line[..|line| - 1][i + m];
      } else {
        assert m == |r| - 1 && IsSpace('\n');
      }
    }
  }

  /** The file is the concatenation of lines that are the targets padded
      with whitespace: the targets are read from the file and nothing but
      whitespace and line breaks is dropped. */
  lemma FileTargetsFromText(text: string)
    ensures exists lines :: Concat(lines) == text && PaddedPieces(lines, FileTargets(text))
  {
    LinesConcat(text);
  }

  /** The pieces of `--domains` between commas, each stripped. A target has
      no whitespace at either end and no comma, and its piece is the target
      with only whitespace added around it. */
  function ArgumentTargets(arg: string): (r: seq<string>)
    ensures |r| == |Split(arg, ',')|
    ensures forall k :: 0 <= k < |r| ==> Stripped(r[k]) && ',' !in r[k]
    ensures PaddedPieces(Split(arg, ','), r)
  {
    var r := Map(Strip, Split(arg, ','));
    forall k | 0 <= k < |r| ensures Stripped(r[k]) && Padded(Split(arg, ',')[k], r[k]) && ',' !in r[k] {
      PieceTarget(Split(arg, ',')[k]);
    }
    r
  }

  /** A comma-free piece, stripped, is a target without a comma. */
  lemma PieceTarget(piece: string)
    requires ',' !in piece
    ensures Stripped(Strip(piece)) && Padded(piece, Strip(piece)) && ',' !in Strip(piece)
  {
    StripStripped(piece);
    StripPadded(piece);
    StripKeepsAbsent(piece, ',');
  }

  /** The argument is the comma join of pieces that are the targets padded
      with whitespace. */
  lemma ArgumentTargetsFromText(arg: string)
    ensures exists pieces :: |pieces| >= 1 && Join(pieces, ',') == arg && PaddedPieces(pieces, ArgumentTargets(arg))
  {
    JoinSplit(arg, ',');
  }

  /** The list before normalisation. `file` is the target file's text when
      a file was named; an absent or empty `--domains` adds nothing. */
  function RawTargets(file: Option<string>, domains: Option<string>): seq<string> {
    (match file case Some(text) => FileTargets(text) case None => [])
    + (match domains case Some(arg) => if arg != [] then ArgumentTargets(arg) else [] case None => [])
  }

  /** `main`'s assembly of the target list: the file's targets, then each
      stripped piece of `--domains` appended in turn. */
  method AssembleTargets(file: Option<string>, domains: Option<string>) returns (targets: seq<string>)
    ensures targets == RawTargets(file, domains)
  {
    targets := [];
    if file.Some? {
      targets := FileTargets(file.value);
    }
    ghost var fromFile := targets;
    var pieces: seq<string> := [];
    if domains.Some? && domains.value != [] {
      pieces := ArgumentTargets(domains.value);
      var i := 0;
      while i < |pieces|
        invariant 0 <= i <= |pieces|
        invariant targets == fromFile + pieces[..i]
      {
        AppendPrefix(fromFile, pieces, i);
        targets := targets + [pieces[i]];
        i := i + 1;
      }
      assert pieces[..i] == pieces;
    } else {
      assert targets == fromFile + pieces;
    }
    RawTargetsParts(file, domains, fromFile, pieces);
  }

  /** The raw list is the file's part followed by the argument's part. */
  lemma RawTargetsParts(file: Option<string>, domains: Option<string>, fromFile: seq<string>, pieces: seq<string>)
    requires fromFile == if file.Some? then FileTargets(file.value) else []
    requires pieces == if domains.Some? && domains.value != [] then ArgumentTargets(domains.value) else []
    ensures RawTargets(file, domains) == fromFile + pieces
  {
  }

  /** One more piece appended to a prefix. */
  lemma AppendPrefix(front: seq<string>, pieces: seq<string>, i: nat)
    requires i < |pieces|
    ensures front + pieces[..i] + [pieces[i]] == front + pieces[..i + 1]
  {
    assert pieces[..i + 1] == pieces[..i] + [pieces[i]];
  }

  function Elements(s: seq<string>): set<string> {
    set x | x in s
  }

  /** `[t.lower() for t in list(set(raw))]`: some order of the distinct
      raw entries, each lower-cased. The order of a Python set is not
      modelled; any order is allowed. */
  ghost predicate IsNormalisation(raw: seq<string>, targets: seq<string>) {
    exists order :: NoDuplicates(order) && Elements(order) == Elements(raw) && targets == Map(Lower, order)
  }

  /** The normalisation as `main` runs it: take the distinct entries one
      at a time, in an unspecified order, lower-casing each. */
  method NormaliseTargets(raw: seq<string>) returns (targets: seq<string>, ghost order: seq<string>)
    ensures NoDuplicates(order) && Elements(order) == Elements(raw)
    ensures targets == Map(Lower, order)
    ensures IsNormalisation(raw, targets)
  {
    var remaining := Elements(raw);
    targets := [];
    order := [];
    while remaining != {}
      invariant Elements(order) + remaining == Elements(raw)
      invariant forall k :: 0 <= k < |order| ==> order[k] !in remaining
      invariant NoDuplicates(order)
      invariant targets == Map(Lower, order)
      decreases remaining
    {
      var t :| t in remaining;
      order := order + [t];
      targets := targets + [Lower(t)];
      remaining := remaining - {t};
    }
  }

  /** What a normalised list holds: one entry per distinct raw entry, all
      lower-case, the lower-cased form of every raw entry and nothing
      else; and no duplicates when the raw entries were lower-case
      already. */
  lemma NormalisationMeaning(raw: seq<string>, targets: seq<string>)
    requires IsNormalisation(raw, targets)
    ensures |targets| == |Elements(raw)|
    ensures forall k :: 0 <= k < |targets| ==> IsLower(targets[k])
    ensures forall x :: x in raw ==> Lower(x) in targets
    ensures forall y :: y in targets ==> exists x :: x in raw && y == Lower(x)
    ensures (forall x :: x in raw ==> IsLower(x)) ==> NoDuplicates(targets)
  {
    var order :| NoDuplicates(order) && Elements(order) == Elements(raw) && targets == Map(Lower, order);
    DistinctCardinality(order);
    forall k | 0 <= k < |targets| ensures IsLower(targets[k]) {
      LowerNormalises(order[k]);
    }
    forall x | x in raw ensures Lower(x) in targets {
      assert x in Elements(order);
      var k :| 0 <= k < |order| && order[k] == x;
      assert targets[k] == Lower(x);
    }
    forall y | y in targets ensures exists x :: x in raw && y == Lower(x) {
      var k :| 0 <= k < |targets| && targets[k] == y;
      assert order[k] in Elements(raw);
    }
    if forall x :: x in raw ==> IsLower(x) {
      forall i, j | 0 <= i < j < |targets| ensures targets[i] != targets[j] {
        assert order[i] in Elements(raw) && order[j] in Elements(raw);
        LowerNormalises(order[i]);
        LowerNormalises(order[j]);
      }
    }
  }

  /** What `main` scans, from its inputs: the lower-cased form of every
      target of the file and of `--domains`, and nothing else; each
      scanned target is lower case with no whitespace at either end. */
  lemma TargetsFromInputs(file: Option<string>, domains: Option<string>, targets: seq<string>)
    requires IsNormalisation(RawTargets(file, domains), targets)
    ensures file.Some? ==> forall x :: x in FileTargets(file.value) ==> Lower(x) in targets
    ensures domains.Some? && domains.value != [] ==>
      forall x :: x in ArgumentTargets(domains.value) ==> Lower(x) in targets
    ensures forall y :: y in targets ==> exists x :: x in RawTargets(file, domains) && y == Lower(x)
    ensures forall k :: 0 <= k < |targets| ==> IsLower(targets[k]) && Stripped(targets[k])
  {
    var raw := RawTargets(file, domains);
    NormalisationMeaning(raw, targets);
    RawTargetsMembers(file, domains);
    NormalisedStripped(raw, targets);
  }

  /** Normalising entries without whitespace at either end gives such
      entries. */
  lemma NormalisedStripped(raw: seq<string>, targets: seq<string>)
    requires IsNormalisation(raw, targets)
    requires forall x :: x in raw ==> Stripped(x)
    ensures forall k :: 0 <= k < |targets| ==> Stripped(targets[k])
  {
    var order :| NoDuplicates(order) && Elements(order) == Elements(raw) && targets == Map(Lower, order);
    forall k | 0 <= k < |targets| ensures Stripped(targets[k]) {
      assert order[k] in Elements(raw);
      LowerKeepsStripped(order[k]);
    }
  }

  /** The raw list holds exactly the file's targets and the targets of a
      non-empty `--domains`, none with whitespace at either end. */
  lemma RawTargetsMembers(file: Option<string>, domains: Option<string>)
    ensures forall x :: x in RawTargets(file, domains) <==>
      (file.Some? && x in FileTargets(file.value))
      || (domains.Some? && domains.value != [] && x in ArgumentTargets(domains.value))
    ensures forall x :: x in RawTargets(file, domains) ==> Stripped(x)
  {
    var raw := RawTargets(file, domains);
    forall x | x in raw ensures Stripped(x) {
      var k :| 0 <= k < |raw| && raw[k] == x;
    }
  }

  /** Lower-casing leaves the ends of a text non-blank. */
  lemma LowerKeepsStripped(s: string)
    requires Stripped(s)
    ensures Stripped(Lower(s))
  {
  }

  /** The deduplication happens before lower-casing, so two spellings of
      one domain both survive and the scan runs twice over it. */
  lemma CaseVariantsSurvive(targets: seq<string>)
    requires IsNormalisation(["A.com", "a.com"], targets)
    ensures targets == ["a.com", "a.com"]
  {
    var order :| NoDuplicates(order) && Elements(order) == Elements(["A.com", "a.com"]) && targets == Map(Lower, order);
    assert Elements(["A.com", "a.com"]) == {"A.com", "a.com"};
    LowerExample();
    TwoSpellings(order, "A.com", "a.com", "a.com");
  }

  lemma LowerExample()
    ensures Lower("A.com") == "a.com" && Lower("a.com") == "a.com"
  {
    assert LowerChar('A') == 'a';
  }

  /** Two distinct spellings with one lower-case form give that form
      twice. */
  lemma TwoSpellings(order: seq<string>, a: string, b: string, l: string)
    requires a != b && Lower(a) == l && Lower(b) == l
    requires NoDuplicates(order) && Elements(order) == {a, b}
    ensures Map(Lower, order) == [l, l]
  {
    DistinctCardinality(order);
    assert |{a, b}| == 2;
    assert order[0] in Elements(order) && order[1] in Elements(order);
  }
}

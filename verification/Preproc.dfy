/**
  The line preprocessor of the QML scanner: `//@ if` blocks whose condition does
  not hold are commented out by a stack of scopes.  What the stack does is stated
  by counting: a scope is open as long as no more blocks were closed than opened
  since it began.
 */
module Preproc {

  /** What evaluating a condition gives. */
  datatype Outcome = True | False | NotBoolean | Failure

  datatype Directive = If(outcome: Outcome) | Endif | Plain

  /** What a line means while the import header lasts. */
  datatype Header = Neutral | BadImport | EndsHeader

  datatype Line = Line(raw: string, directive: Directive, header: Header)

  /** Import lines are never directives. */
  predicate WellFormed(lines: seq<Line>) {
    forall i :: 0 <= i < |lines| && lines[i].header == BadImport ==> lines[i].directive == Plain
  }

  const MASK := "// MASKED: "

  datatype Error =
    | Evaluating(line: nat)
    | IfNotBoolean(line: nat)
    | EndifWithoutIf(line: nat)
    | UnclosedIf(line: nat)

  // ---------------------------------------------------- scopes, by counting

  /** Blocks opened minus blocks closed by the lines from i up to j. */
  function Balance(lines: seq<Line>, i: nat, j: nat): int
    requires i <= j <= |lines|
  {
    if i == j then 0
    else Balance(lines, i, j - 1)
         + match lines[j - 1].directive { case If(_) => 1 case Endif => -1 case Plain => 0 }
  }

  /** The block begun at line k has not been closed by the lines before n. */
  ghost predicate Open(lines: seq<Line>, k: nat, n: nat)
    requires n <= |lines|
  {
    k < n && lines[k].directive.If? && NeverBelow(lines, k + 1, n)
  }

  ghost predicate NeverBelow(lines: seq<Line>, from: nat, n: nat)
    requires from <= n <= |lines|
  {
    forall m :: from <= m <= n ==> Balance(lines, from, m) >= 0
  }

  predicate Fails(lines: seq<Line>, k: nat)
    requires k < |lines|
  {
    lines[k].directive.If? && lines[k].directive.outcome != True
  }

  /** Line i lies strictly inside a block whose condition does not hold; directive lines are outside their own block. */
  ghost predicate Masked(lines: seq<Line>, i: nat)
    requires i < |lines|
  {
    exists k :: 0 <= k < i && Open(lines, k, i + 1) && Fails(lines, k)
  }

  /** Every block is closed, and no close comes without a block. */
  ghost predicate Balanced(lines: seq<Line>) {
    NeverBelow(lines, 0, |lines|) && Balance(lines, 0, |lines|) == 0
  }

  // ------------------------------------------------------ scopes, as a stack

  /** The positions of the open blocks after n lines, outermost first. */
  function Scopes(lines: seq<Line>, n: nat): (s: seq<nat>)
    requires n <= |lines|
    ensures forall j :: 0 <= j < |s| ==> s[j] < n && lines[s[j]].directive.If?
  {
    if n == 0 then []
    else
      var s := Scopes(lines, n - 1);
      match lines[n - 1].directive
      case If(_) => s + [n - 1]
      case Endif => if s == [] then s else s[..|s| - 1]
      case Plain => s
  }

  ghost predicate Counted(lines: seq<Line>, s: seq<nat>, j: nat, n: nat)
    requires j < |s| && n <= |lines|
  {
    Open(lines, s[j], n) && Balance(lines, s[j] + 1, n) == |s| - 1 - j
  }

  /** The stack holds exactly the open blocks, and the count since each tells how many lie above it. */
  lemma {:induction false} ScopesAreOpen(lines: seq<Line>, n: nat)
    requires n <= |lines|
    ensures forall j :: 0 <= j < |Scopes(lines, n)| ==> Counted(lines, Scopes(lines, n), j, n)
    ensures forall k :: 0 <= k < n && Open(lines, k, n) ==> k in Scopes(lines, n)
  {
    if n > 0 {
      ScopesAreOpen(lines, n - 1);
      var s, s' := Scopes(lines, n - 1), Scopes(lines, n);
      forall j | 0 <= j < |s'| ensures Counted(lines, s', j, n) {
        if j < |s| {
          assert Counted(lines, s, j, n - 1);
          StillOpen(lines, s[j], n);
        }
      }
      forall k | 0 <= k < n && Open(lines, k, n) ensures k in s' {
        if k < n - 1 {
          StillOpen(lines, k, n);
          var j :| 0 <= j < |s| && s[j] == k;
          assert Counted(lines, s, j, n - 1);
          assert s'[j] == k;
        } else {
          assert s'[|s|] == k;
        }
      }
    }
  }

  lemma StillOpen(lines: seq<Line>, k: nat, n: nat)
    requires k + 1 < n <= |lines|
    ensures Open(lines, k, n) <==> Open(lines, k, n - 1) && Balance(lines, k + 1, n) >= 0
  {}

  /** Some open block after n lines has a condition that does not hold. */
  predicate Hidden(lines: seq<Line>, n: nat)
    requires n <= |lines|
  {
    exists j :: 0 <= j < |Scopes(lines, n)| && Fails(lines, Scopes(lines, n)[j])
  }

  lemma MaskedIsHidden(lines: seq<Line>, i: nat)
    requires i < |lines|
    ensures Masked(lines, i) <==> if lines[i].directive.If? then Hidden(lines, i) else Hidden(lines, i + 1)
  {
    hide Balance, NeverBelow;
    ScopesAreOpen(lines, i);
    ScopesAreOpen(lines, i + 1);
    var s, s' := Scopes(lines, i), Scopes(lines, i + 1);
    if k :| 0 <= k < i && Open(lines, k, i + 1) && Fails(lines, k) {
      StillOpen(lines, k, i + 1);
      assert k in s && k in s';
    }
    if lines[i].directive.If? {
      if j :| 0 <= j < |s| && Fails(lines, s[j]) {
        assert s'[j] == s[j] && Counted(lines, s', j, i + 1);
      }
    } else if j :| 0 <= j < |s'| && Fails(lines, s'[j]) {
      assert s[j] == s'[j] < i && Counted(lines, s', j, i + 1);
    }
  }

  /** As long as nothing was closed without a block, the depth of the stack is the count. */
  lemma {:induction false} DepthIsBalance(lines: seq<Line>, n: nat)
    requires n <= |lines|
    ensures AllMatched(lines, n) <==> NeverBelow(lines, 0, n)
    ensures AllMatched(lines, n) ==> |Scopes(lines, n)| == Balance(lines, 0, n)
  {
    if n > 0 {
      DepthIsBalance(lines, n - 1);
      assert AllMatched(lines, n) <==> AllMatched(lines, n - 1) && !Unmatched(lines, n - 1);
      assert NeverBelow(lines, 0, n) <==> NeverBelow(lines, 0, n - 1) && Balance(lines, 0, n) >= 0;
    }
  }

  ghost predicate AllMatched(lines: seq<Line>, n: nat)
    requires n <= |lines|
  {
    forall i :: 0 <= i < n ==> !Unmatched(lines, i)
  }

  predicate Unmatched(lines: seq<Line>, i: nat)
    requires i < |lines|
  {
    lines[i].directive == Endif && Scopes(lines, i) == []
  }

  // ------------------------------------------------------------------- output

  /** The header lasts until a visible line ends it. */
  predicate InHeader(lines: seq<Line>, n: nat)
    requires n <= |lines|
  {
    n == 0 || (InHeader(lines, n - 1) && !(lines[n - 1].header == EndsHeader && !Hidden(lines, n - 1)))
  }

  /** A visible header import that cannot be parsed is left out of the output altogether. */
  predicate Dropped(lines: seq<Line>, i: nat)
    requires i < |lines|
  {
    lines[i].header == BadImport && InHeader(lines, i) && !Hidden(lines, i)
  }

  /** Some block that is open by counting has a condition that does not hold. */
  lemma HiddenMeans(lines: seq<Line>, n: nat)
    requires n <= |lines|
    ensures Hidden(lines, n) <==> exists k :: 0 <= k < n && Open(lines, k, n) && Fails(lines, k)
  {
    hide Balance, NeverBelow;
    ScopesAreOpen(lines, n);
    if j :| 0 <= j < |Scopes(lines, n)| && Fails(lines, Scopes(lines, n)[j]) {
      assert Counted(lines, Scopes(lines, n), j, n);
    }
  }

  /** The header lasts exactly as long as no visible line ended it. */
  lemma {:induction false} HeaderMeans(lines: seq<Line>, n: nat)
    requires n <= |lines|
    ensures InHeader(lines, n) <==> forall i :: 0 <= i < n ==> !(lines[i].header == EndsHeader && !Hidden(lines, i))
  {
    hide Hidden;
    if n > 0 {
      HeaderMeans(lines, n - 1);
    }
  }

  ghost function Output(lines: seq<Line>, n: nat): seq<string>
    requires n <= |lines|
  {
    if n == 0 then [] else Output(lines, n - 1) + OutputAt(lines, n - 1)
  }

  ghost function OutputAt(lines: seq<Line>, i: nat): seq<string>
    requires i < |lines|
  {
    if Dropped(lines, i) then [] else [if Masked(lines, i) then MASK + lines[i].raw else lines[i].raw]
  }

  /** Without malformed header imports the output is the source line by line, masked lines behind the prefix. */
  lemma {:induction false} OutputKeepsLines(lines: seq<Line>, n: nat)
    requires n <= |lines| && forall i :: 0 <= i < n ==> lines[i].header != BadImport
    ensures |Output(lines, n)| == n
    ensures forall i :: 0 <= i < n ==>
              Output(lines, n)[i] == if Masked(lines, i) then MASK + lines[i].raw else lines[i].raw
  {
    if n > 0 {
      OutputKeepsLines(lines, n - 1);
    }
  }

  /** Every line has its one place in the output, except malformed imports that are seen in the header. */
  lemma OutputStep(lines: seq<Line>, i: nat)
    requires i < |lines|
    ensures Output(lines, i + 1) == Output(lines, i)
            + if lines[i].header == BadImport && InHeader(lines, i) && !Hidden(lines, i) then []
              else [if Masked(lines, i) then MASK + lines[i].raw else lines[i].raw]
  {
    hide Masked, Hidden, InHeader;
  }

  /** A masked line is a comment on one line, and taking the prefix off gives the line back. */
  lemma MaskedIsComment(raw: string)
    ensures "//" <= MASK && '\n' !in MASK
    ensures MASK <= MASK + raw && (MASK + raw)[|MASK|..] == raw
  {}

  /** A line shows under a condition that is true, and under no other outcome. */
  lemma OnlyTrueShows(outcome: Outcome, line: Line)
    requires line.directive == Plain
    ensures Masked([Line("", If(outcome), Neutral), line], 1) <==> outcome != True
  {
    var lines := [Line("", If(outcome), Neutral), line];
    assert Balance(lines, 1, 1) == 0 && Balance(lines, 1, 2) == 0;
    assert Open(lines, 0, 2);
    assert Fails(lines, 0) <==> outcome != True;
  }

  function ErrorsAt(lines: seq<Line>, i: nat): seq<Error>
    requires i < |lines|
  {
    match lines[i].directive
    case If(Failure) => [Evaluating(i + 1)]
    case If(NotBoolean) => [IfNotBoolean(i + 1)]
    case If(_) => []
    case Endif => if Unmatched(lines, i) then [EndifWithoutIf(i + 1)] else []
    case Plain => []
  }

  function Errors(lines: seq<Line>, n: nat): seq<Error>
    requires n <= |lines|
  {
    if n == 0 then [] else Errors(lines, n - 1) + ErrorsAt(lines, n - 1)
  }

  function LineOf(e: Error): nat {
    match e
    case Evaluating(line) => line
    case IfNotBoolean(line) => line
    case EndifWithoutIf(line) => line
    case UnclosedIf(line) => line
  }

  ghost predicate NothingOpen(lines: seq<Line>, n: nat)
    requires n <= |lines|
  {
    forall k :: 0 <= k < n ==> !Open(lines, k, n)
  }

  /** What the lines give cause for: lines are counted from 1, and blocks are open by counting. */
  ghost predicate Due(lines: seq<Line>, e: Error) {
    match e
    case Evaluating(line) => 1 <= line <= |lines| && lines[line - 1].directive == If(Failure)
    case IfNotBoolean(line) => 1 <= line <= |lines| && lines[line - 1].directive == If(NotBoolean)
    case EndifWithoutIf(line) =>
      1 <= line <= |lines| && lines[line - 1].directive == Endif && NothingOpen(lines, line - 1)
    case UnclosedIf(line) => line == |lines| && !NothingOpen(lines, |lines|)
  }

  lemma UnmatchedIsUnopened(lines: seq<Line>, i: nat)
    requires i < |lines|
    ensures Unmatched(lines, i) <==> lines[i].directive == Endif && NothingOpen(lines, i)
  {
    hide Balance, NeverBelow;
    ScopesAreOpen(lines, i);
    if Scopes(lines, i) != [] {
      assert Counted(lines, Scopes(lines, i), 0, i);
    }
  }

  lemma ErrorAtLine(lines: seq<Line>, i: nat, e: Error)
    requires i < |lines|
    ensures |ErrorsAt(lines, i)| <= 1
    ensures e in ErrorsAt(lines, i) <==> !e.UnclosedIf? && LineOf(e) == i + 1 && Due(lines, e)
  {
    hide Balance, NeverBelow, Scopes, Open;
    UnmatchedIsUnopened(lines, i);
  }

  /** The lines report what is due, line by line, at most once each and in their order. */
  lemma {:induction false} ErrorsAreDue(lines: seq<Line>, n: nat)
    requires n <= |lines|
    ensures forall e: Error :: e in Errors(lines, n) <==> !e.UnclosedIf? && LineOf(e) <= n && Due(lines, e)
    ensures forall i, j :: 0 <= i < j < |Errors(lines, n)| ==> LineOf(Errors(lines, n)[i]) < LineOf(Errors(lines, n)[j])
  {
    hide Open, ErrorsAt, LineOf;
    if n == 0 {
      forall e: Error ensures !e.UnclosedIf? && LineOf(e) <= 0 ==> !Due(lines, e) {
        FirstLineIsOne(lines, e);
      }
    } else {
      ErrorsAreDue(lines, n - 1);
      forall e: Error ensures e in ErrorsAt(lines, n - 1) <==> !e.UnclosedIf? && LineOf(e) == n && Due(lines, e) {
        ErrorAtLine(lines, n - 1, e);
      }
      var before, here := Errors(lines, n - 1), ErrorsAt(lines, n - 1);
      ErrorAtLine(lines, n - 1, Evaluating(n));
      forall i, j | 0 <= i < j < |before + here|
        ensures LineOf((before + here)[i]) < LineOf((before + here)[j])
      {
        if j >= |before| {
          assert (before + here)[j] in here && before[i] in before;
        }
      }
    }
  }

  lemma FirstLineIsOne(lines: seq<Line>, e: Error)
    ensures !e.UnclosedIf? && Due(lines, e) ==> LineOf(e) >= 1
  {}

  /** All that is reported for a file is due, and all that is due is reported. */
  lemma AllThatIsDue(lines: seq<Line>, errors: seq<Error>)
    requires errors == Errors(lines, |lines|)
                       + if Scopes(lines, |lines|) != [] then [UnclosedIf(|lines|)] else []
    ensures forall e :: e in errors <==> Due(lines, e)
  {
    hide Errors, Balance, NeverBelow, Scopes;
    var n := |lines|;
    ErrorsAreDue(lines, n);
    ScopesAreOpen(lines, n);
    if Scopes(lines, n) != [] {
      assert Counted(lines, Scopes(lines, n), 0, n);
    }
    forall e ensures e in errors <==> Due(lines, e) {
      LinesEnd(lines, e);
    }
  }

  lemma LinesEnd(lines: seq<Line>, e: Error)
    ensures Due(lines, e) ==> LineOf(e) <= |lines|
  {}

  predicate PairingError(e: Error) {
    e.EndifWithoutIf? || e.UnclosedIf?
  }

  ghost predicate HasPairingError(errors: seq<Error>) {
    exists i :: 0 <= i < |errors| && PairingError(errors[i])
  }

  lemma PairingErrorsConcat(a: seq<Error>, b: seq<Error>)
    ensures HasPairingError(a + b) <==> HasPairingError(a) || HasPairingError(b)
  {
    if i :| 0 <= i < |a| && PairingError(a[i]) {
      assert PairingError((a + b)[i]);
    }
    if i :| 0 <= i < |b| && PairingError(b[i]) {
      assert PairingError((a + b)[|a| + i]);
    }
  }

  lemma {:induction false} PairingErrorsAreUnmatched(lines: seq<Line>, n: nat)
    requires n <= |lines|
    ensures HasPairingError(Errors(lines, n)) <==> !AllMatched(lines, n)
  {
    if n > 0 {
      PairingErrorsAreUnmatched(lines, n - 1);
      PairingErrorsConcat(Errors(lines, n - 1), ErrorsAt(lines, n - 1));
      if Unmatched(lines, n - 1) {
        assert PairingError(ErrorsAt(lines, n - 1)[0]);
      }
      assert AllMatched(lines, n) <==> AllMatched(lines, n - 1) && !Unmatched(lines, n - 1);
    }
  }

  /** Pairing errors are reported exactly for unbalanced files. */
  lemma PairingErrorsMeanUnbalanced(lines: seq<Line>, errors: seq<Error>)
    requires errors == Errors(lines, |lines|)
                       + if Scopes(lines, |lines|) != [] then [UnclosedIf(|lines|)] else []
    ensures HasPairingError(errors) <==> !Balanced(lines)
  {
    hide Errors, Scopes, Balance, AllMatched, NeverBelow;
    var n := |lines|;
    var unclosed := if Scopes(lines, n) != [] then [UnclosedIf(n)] else [];
    PairingErrorsAreUnmatched(lines, n);
    PairingErrorsConcat(Errors(lines, n), unclosed);
    DepthIsBalance(lines, n);
    if unclosed != [] {
      assert PairingError(unclosed[0]);
    }
  }

  // --------------------------------------------------------------- the scanner

  /** Comments out what is masked with a stack of scopes, and reports what does not pair up. */
  method Preprocess(lines: seq<Line>) returns (output: seq<string>, errors: seq<Error>, overridden: bool)
    requires WellFormed(lines)
    ensures output == Output(lines, |lines|)
    ensures errors == Errors(lines, |lines|) + if Scopes(lines, |lines|) != [] then [UnclosedIf(|lines|)] else []
    ensures forall e :: e in errors <==> Due(lines, e)
    ensures HasPairingError(errors) <==> !Balanced(lines)
    ensures overridden <==> exists i :: 0 <= i < |lines| && Fails(lines, i)
    ensures !overridden ==> forall i :: 0 <= i < |lines| ==> !Masked(lines, i)
  {
    hide Due, Balanced, Masked, HasPairingError, Tracks, Scopes, Hidden, InHeader, Done, Output, Errors;
    output, errors, overridden := [], [], false;
    var inHeader, sourceMasked, lineNum := true, false, 0;
    var ifScopes: seq<bool> := [];
    NothingTracked(lines);
    while lineNum < |lines|
      invariant lineNum <= |lines|
      invariant Done(lines, lineNum, output, errors, inHeader, overridden)
      invariant Tracks(lines, lineNum, ifScopes)
      invariant sourceMasked == (ifScopes != [] && ifScopes[|ifScopes| - 1])
    {
      TopTells(lines, lineNum, ifScopes);
      MaskedIsHidden(lines, lineNum);
      DoneStep(lines, lineNum, output, errors, inHeader, overridden);
      ghost var n := lineNum;
      var line := lines[lineNum];
      lineNum := lineNum + 1;
      var dropped := false;
      if !sourceMasked && inHeader {
        if line.header == BadImport {
          dropped := true;
        } else if line.header == EndsHeader {
          inHeader := false;
        }
      }
      if dropped {
        MaskPopped(lines, n, ifScopes);
        assert output + [] == output && errors + [] == errors;
        continue;
      }
      var hideMask := false;
      if line.directive.If? {
        var mask := true;
        match line.directive.outcome {
          case Failure => errors := errors + [Evaluating(lineNum)];
          case NotBoolean => errors := errors + [IfNotBoolean(lineNum)];
          case True => mask := false;
          case False =>
        }
        if !sourceMasked && mask {
          hideMask := true;
        }
        mask := sourceMasked || mask;
        MaskPushed(lines, n, ifScopes);
        ifScopes := ifScopes + [mask];
        if mask {
          overridden := true;
        }
        sourceMasked := mask;
      } else {
        MaskPopped(lines, n, ifScopes);
        if line.directive == Endif {
          if ifScopes == [] {
            errors := errors + [EndifWithoutIf(lineNum)];
          } else {
            ifScopes := ifScopes[..|ifScopes| - 1];
            sourceMasked := if ifScopes == [] then false else ifScopes[|ifScopes| - 1];
          }
        }
      }
      TopTells(lines, lineNum, ifScopes);
      assert line.directive == Plain ==> errors + [] == errors;
      output := output + [if !hideMask && sourceMasked then MASK + line.raw else line.raw];
    }
    TopTells(lines, lineNum, ifScopes);
    AllDone(lines, output, errors, inHeader, overridden);
    if ifScopes != [] {
      errors := errors + [UnclosedIf(lineNum)];
    }
    PairingErrorsMeanUnbalanced(lines, errors);
    AllThatIsDue(lines, errors);
    NeverMasked(lines);
  }

  /** Everything the loop has produced for the first n lines. */
  ghost predicate Done(lines: seq<Line>, n: nat, output: seq<string>, errors: seq<Error>,
                       inHeader: bool, overridden: bool)
    requires n <= |lines|
  {
    && output == Output(lines, n) && errors == Errors(lines, n) && inHeader == InHeader(lines, n)
    && (overridden <==> exists i :: 0 <= i < n && Fails(lines, i))
  }

  lemma DoneStep(lines: seq<Line>, n: nat, output: seq<string>, errors: seq<Error>, inHeader: bool, overridden: bool)
    requires n < |lines| && Done(lines, n, output, errors, inHeader, overridden)
    ensures Done(lines, n + 1, output + OutputAt(lines, n), errors + ErrorsAt(lines, n),
                 inHeader && !(lines[n].header == EndsHeader && !Hidden(lines, n)), overridden || Fails(lines, n))
    ensures Hidden(lines, n) ==> overridden
    ensures inHeader == InHeader(lines, n)
  {
    hide Hidden, Scopes, OutputAt, ErrorsAt, Fails, Masked;
    if Hidden(lines, n) {
      HiddenFails(lines, n);
    }
  }

  lemma AllDone(lines: seq<Line>, output: seq<string>, errors: seq<Error>, inHeader: bool, overridden: bool)
    requires Done(lines, |lines|, output, errors, inHeader, overridden)
    ensures output == Output(lines, |lines|) && errors == Errors(lines, |lines|)
    ensures overridden <==> exists i :: 0 <= i < |lines| && Fails(lines, i)
  {}

  lemma HiddenFails(lines: seq<Line>, n: nat)
    requires n <= |lines| && Hidden(lines, n)
    ensures exists i :: 0 <= i < n && Fails(lines, i)
  {}

  lemma NothingTracked(lines: seq<Line>)
    ensures Tracks(lines, 0, []) && Done(lines, 0, [], [], true, false)
  {}

  lemma NeverMasked(lines: seq<Line>)
    ensures (forall i :: 0 <= i < |lines| ==> !Fails(lines, i)) ==> forall i :: 0 <= i < |lines| ==> !Masked(lines, i)
  {}

  /** Entry j of the mask stack tells whether any of the first j + 1 open conditions does not hold. */
  ghost predicate Tracks(lines: seq<Line>, n: nat, masks: seq<bool>)
    requires n <= |lines|
  {
    && |masks| == |Scopes(lines, n)|
    && forall j :: 0 <= j < |masks| ==> (masks[j] <==> FailsUpTo(lines, Scopes(lines, n), j))
  }

  ghost predicate FailsUpTo(lines: seq<Line>, s: seq<nat>, j: nat)
    requires j < |s| && forall i :: 0 <= i < |s| ==> s[i] < |lines|
  {
    exists i :: 0 <= i <= j && Fails(lines, s[i])
  }

  lemma TopTells(lines: seq<Line>, n: nat, masks: seq<bool>)
    requires n <= |lines| && Tracks(lines, n, masks)
    ensures Hidden(lines, n) <==> masks != [] && masks[|masks| - 1]
    ensures masks == [] <==> Scopes(lines, n) == []
  {}

  lemma MaskPushed(lines: seq<Line>, n: nat, masks: seq<bool>)
    requires n < |lines| && Tracks(lines, n, masks) && lines[n].directive.If?
    ensures Tracks(lines, n + 1, masks + [(masks != [] && masks[|masks| - 1]) || Fails(lines, n)])
  {
    hide Fails;
    var masks' := masks + [(masks != [] && masks[|masks| - 1]) || Fails(lines, n)];
    var s, s' := Scopes(lines, n), Scopes(lines, n + 1);
    forall j | 0 <= j < |masks'| ensures masks'[j] <==> FailsUpTo(lines, s', j) {
      if j < |masks| {
        assert masks[j] <==> FailsUpTo(lines, s, j);
        SamePrefix(lines, s, s', j);
      } else {
        if masks != [] {
          assert masks[j - 1] <==> FailsUpTo(lines, s, j - 1);
          SamePrefix(lines, s, s', j - 1);
        }
        assert s'[j] == n;
      }
    }
  }

  lemma MaskPopped(lines: seq<Line>, n: nat, masks: seq<bool>)
    requires n < |lines| && Tracks(lines, n, masks) && !lines[n].directive.If?
    ensures Tracks(lines, n + 1, if lines[n].directive == Endif && masks != [] then masks[..|masks| - 1] else masks)
  {
    hide Fails;
    var masks' := if lines[n].directive == Endif && masks != [] then masks[..|masks| - 1] else masks;
    var s, s' := Scopes(lines, n), Scopes(lines, n + 1);
    forall j | 0 <= j < |masks'| ensures masks'[j] <==> FailsUpTo(lines, s', j) {
      assert masks[j] <==> FailsUpTo(lines, s, j);
      SamePrefix(lines, s, s', j);
    }
  }

  lemma SamePrefix(lines: seq<Line>, s: seq<nat>, s': seq<nat>, j: nat)
    requires j < |s| && j < |s'| && (forall i :: 0 <= i <= j ==> s[i] == s'[i])
    requires (forall i :: 0 <= i < |s| ==> s[i] < |lines|) && forall i :: 0 <= i < |s'| ==> s'[i] < |lines|
    ensures FailsUpTo(lines, s, j) <==> FailsUpTo(lines, s', j)
  {}
}

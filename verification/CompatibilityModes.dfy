/** From the compatibility mode of an upload to the comparison it runs. */
module CompatibilityModes {
  import opened Sequences
  import opened Descriptors
  import opened Compatibility
  import opened Verdicts

  datatype Strategy = Backward | Forward | Full {
    predicate IsStrict() { !Forward? }

    function NotAllowed(): seq<DiffKind> {
      match this
      case Backward => BACKWARD
      case Forward => FORWARD
      case Full => FULL
    }
  }

  datatype Checker = ValidateLatest(strategy: Strategy) | ValidateAll(strategy: Strategy) | DefaultCheck

  function GetCompatibilityChecker(compatibility: string): Checker {
    match compatibility
    case "COMPATIBILITY_BACKWARD" => ValidateLatest(Backward)
    case "COMPATIBILITY_BACKWARD_TRANSITIVE" => ValidateAll(Backward)
    case "COMPATIBILITY_FORWARD" => ValidateLatest(Forward)
    case "COMPATIBILITY_FORWARD_TRANSITIVE" => ValidateAll(Forward)
    case "COMPATIBILITY_FULL" => ValidateLatest(Full)
    case "COMPATIBILITY_FULL_TRANSITIVE" => ValidateAll(Full)
    case _ => DefaultCheck
  }

  predicate Accepts(checker: Checker, current: seq<File>, prevs: seq<seq<File>>) {
    match checker
    case ValidateLatest(s) => prevs == [] || Compatible(s.IsStrict(), current, prevs[0])
    case ValidateAll(s) => forall prev | prev in prevs :: Compatible(s.IsStrict(), current, prev)
    case DefaultCheck => true
  }

  /** Runs one strategy; true when it reports no disallowed difference. */
  method RunStrategy(strategy: Strategy, current: seq<File>, prev: seq<File>) returns (ok: bool)
    ensures ok <==> Compatible(strategy.IsStrict(), current, prev)
  {
    var err := CompareSchemas(current, prev, strategy.NotAllowed());
    CollectedNothing(strategy.NotAllowed(), strategy.IsStrict(), current, prev);
    ok := err == null;
  }

  /** Every mode looks at the previous versions it is given: the plain modes at the first, the
      transitive modes at each of them, collecting all errors. */
  method Check(checker: Checker, current: seq<File>, prevs: seq<seq<File>>) returns (ok: bool)
    ensures ok <==> Accepts(checker, current, prevs)
  {
    match checker
    case DefaultCheck => return true;
    case ValidateLatest(s) =>
      for i := 0 to |prevs|
        invariant i == 0
      {
        ok := RunStrategy(s, current, prevs[i]);
        return;
      }
      return true;
    case ValidateAll(s) =>
      ok := true;
      for i := 0 to |prevs|
        invariant ok <==> forall prev | prev in prevs[..i] :: Compatible(s.IsStrict(), current, prev)
      {
        var e := RunStrategy(s, current, prevs[i]);
        assert prevs[..i + 1] == prevs[..i] + [prevs[i]];
        ok := ok && e;
      }
      assert prevs[..|prevs|] == prevs;
  }

  /** The service hands over the latest version alone, so a transitive mode accepts exactly what its
      plain mode accepts. */
  lemma TransitiveModesCheckLatestOnly(strategy: Strategy, current: seq<File>, latest: seq<File>)
    ensures Accepts(ValidateAll(strategy), current, [latest]) <==> Accepts(ValidateLatest(strategy), current, [latest])
    ensures Accepts(ValidateLatest(strategy), current, [latest]) <==> Compatible(strategy.IsStrict(), current, latest)
  {
    assert [latest][0] == latest && latest in [latest];
  }

  predicate IsStrictMode(mode: string) {
    mode in {"COMPATIBILITY_BACKWARD", "COMPATIBILITY_BACKWARD_TRANSITIVE", "COMPATIBILITY_FULL",
             "COMPATIBILITY_FULL_TRANSITIVE"}
  }

  predicate IsForwardMode(mode: string) {
    mode in {"COMPATIBILITY_FORWARD", "COMPATIBILITY_FORWARD_TRANSITIVE"}
  }

  /** Backward and full modes ask for strict compatibility, forward modes for the lenient kind, and any
      other mode for nothing. */
  ghost predicate MeetsMode(mode: string, current: seq<File>, prev: seq<File>) {
    && (IsStrictMode(mode) ==> Compatible(true, current, prev))
    && (IsForwardMode(mode) ==> Compatible(false, current, prev))
  }

  predicate IsTransitiveMode(mode: string) {
    mode in {"COMPATIBILITY_BACKWARD_TRANSITIVE", "COMPATIBILITY_FORWARD_TRANSITIVE",
             "COMPATIBILITY_FULL_TRANSITIVE"}
  }

  /** Which comparison a mode stands for: with each of the previous versions it is given if the mode is
      transitive, and otherwise with the first. */
  lemma ModeMeaning(mode: string, current: seq<File>, prevs: seq<seq<File>>)
    ensures Accepts(GetCompatibilityChecker(mode), current, prevs) <==>
            if IsTransitiveMode(mode) then forall prev | prev in prevs :: MeetsMode(mode, current, prev)
            else prevs == [] || MeetsMode(mode, current, prevs[0])
  {}
}

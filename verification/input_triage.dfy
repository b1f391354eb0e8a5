/** The read loop of `Program.Main`: how each line typed at the prompt is
    classified, and when the loop stops. */
module InputTriage {
  import opened Text

  /** The two lookups `Main` dispatches to. */
  datatype Flow =
    | DnsRecords     // CheckDnsRecords: an ANY query for a subdomain
    | DomainDetails  // CheckDomainDetails: SOA query plus WHOIS expiry, raced against a 1-minute notice

  /** What one iteration of the loop does with its input line. */
  datatype Triage =
    | NoValidName       // null or "": error message, no lookup
    | Exit              // "exit" in any case: no lookup, the loop ends
    | MissingExtension  // no '.': error message, no lookup
    | Lookup(flow: Flow)

  /** How a session ends: after "exit" with the farewell message, or with the
      NullReferenceException that `null.ToLower()` raises in the loop
      condition once the input stream is exhausted. */
  datatype SessionEnd = Farewell | NullInputCrash

  /** `domainName.ToLower() == "exit"`. */
  predicate IsExitCommand(s: string) {
    ToLower(s) == "exit"
  }

  /** `IsSubdomain`: the name splits on '.' into more than two pieces. */
  predicate IsSubdomain(name: string) {
    |SplitOn(name, '.')| > 2
  }

  /** Empty labels count, so a name is a subdomain exactly when it holds at
      least two dots. */
  lemma {:induction false} SubdomainIffTwoDots(name: string)
    ensures IsSubdomain(name) <==> CountChar(name, '.') >= 2
  {
    SplitOnLength(name, '.');
  }

  /** The one-line decision of an iteration, for a line that is not null. */
  function Classify(input: string): (t: Triage)
  {
    if input != [] && !IsExitCommand(input) then
      if '.' !in input then MissingExtension
      else Lookup(if IsSubdomain(input) then DnsRecords else DomainDetails)
    else if input == [] then NoValidName
    else Exit
  }

  /** "exit" is recognised in any mix of upper and lower case, and in no other spelling. */
  lemma {:induction false} ExitSpellings(s: string)
    ensures IsExitCommand(s) <==> |s| == 4 && forall i :: 0 <= i < 4 ==> s[i] == "exit"[i] || s[i] == "EXIT"[i]
  {
    if |s| == 4 && IsExitCommand(s) {
      forall i | 0 <= i < 4 ensures s[i] == "exit"[i] || s[i] == "EXIT"[i] {
        assert LowerChar(s[i]) == "exit"[i];
      }
    }
    if |s| == 4 && forall i :: 0 <= i < 4 ==> s[i] == "exit"[i] || s[i] == "EXIT"[i] {
      assert ToLower(s) == "exit";
    }
  }

  /** The triage cases, each by what the input looks like: exactly one holds. */
  lemma {:induction false} ClassifyCases(input: string)
    ensures Classify(input) == NoValidName <==> input == []
    ensures Classify(input) == Exit <==> IsExitCommand(input)
    ensures Classify(input) == MissingExtension <==> input != [] && !IsExitCommand(input) && '.' !in input
    ensures Classify(input).Lookup? <==> '.' in input
    ensures Classify(input) == Lookup(DnsRecords) <==> CountChar(input, '.') >= 2
  {
    SubdomainIffTwoDots(input);
    if '.' in input {
      // "exit" spelled in any case holds no dot
      ExitSpellings(input);
    }
  }

  /** White space alone is not an empty name: with no '.' it is a missing extension. */
  lemma {:induction false} WhiteSpaceIsMissingExtension(input: string)
    requires input != []
    requires forall i :: 0 <= i < |input| ==> IsWhiteSpace(input[i])
    ensures Classify(input) == MissingExtension
  {
    ExitSpellings(input);
    assert input[0] != 'e' && input[0] != 'E' by {
      assert IsWhiteSpace(input[0]);
    }
    assert forall i :: 0 <= i < |input| ==> input[i] != '.' by {
      assert !IsWhiteSpace('.');
    }
  }

  /** The do-while loop of `Main` over the lines the console delivers, in
      order; after the last one `Console.ReadLine()` returns null. `trace`
      holds the decision of every iteration that ran. */
  method RunSession(inputs: seq<string>) returns (trace: seq<Triage>, end: SessionEnd)
    ensures |trace| >= 1
    ensures forall k :: 0 <= k < |trace| && k < |inputs| ==> trace[k] == Classify(inputs[k])
    ensures forall k :: 0 <= k < |trace| - 1 ==> trace[k] != Exit
    ensures end == Farewell <==> exists k :: 0 <= k < |inputs| && IsExitCommand(inputs[k])
    ensures end == Farewell ==> |trace| <= |inputs| && trace[|trace| - 1] == Exit
    ensures end == NullInputCrash ==> |trace| == |inputs| + 1 && trace[|inputs|] == NoValidName
  {
    trace := [];
    var i := 0;
    while true
      invariant 0 <= i <= |inputs| && |trace| == i
      invariant forall k :: 0 <= k < i ==> trace[k] == Classify(inputs[k]) && trace[k] != Exit
      invariant forall k :: 0 <= k < i ==> !IsExitCommand(inputs[k])
      decreases |inputs| - i
    {
      if i == |inputs| {
        // ReadLine() == null: IsNullOrEmpty reports it, then null.ToLower() throws
        trace := trace + [NoValidName];
        end := NullInputCrash;
        return;
      }
      var domainName := inputs[i];
      var t := Classify(domainName);
      ClassifyCases(domainName);
      trace := trace + [t];
      i := i + 1;
      if IsExitCommand(domainName) {
        end := Farewell;
        return;
      }
    }
  }
}

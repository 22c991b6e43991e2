/** Input validation: only the checks that the registry's bounds rest on. Strings stand for Go's byte strings. */
module Validator {
  import opened Options

  const MAX_NODE_ID_LEN: nat := 255
  const MAX_TASKS_PER_HEARTBEAT: nat := 10000
  const MAX_ADDRESS_LEN: nat := 512
  const MAX_VERSION_LEN: nat := 64

  datatype Reason = Empty | NullBytes | TooLong | BadCharacters | TooMany
  datatype Failure = Failure(field: string, reason: Reason)

  predicate IsAlphanumeric(c: char) {
    'a' <= c <= 'z' || 'A' <= c <= 'Z' || '0' <= c <= '9'
  }

  // ^[a-zA-Z0-9][a-zA-Z0-9\-_.]*$
  predicate MatchesSafeId(s: string) {
    && s != ""
    && IsAlphanumeric(s[0])
    && forall i | 0 < i < |s| :: IsAlphanumeric(s[i]) || s[i] in {'-', '_', '.'}
  }

  predicate HasNullBytes(s: string) {
    '\0' in s
  }

  function ValidateStringID(s: string, field: string, maxLen: nat): Option<Failure> {
    if s == "" then Some(Failure(field, Empty))
    else if HasNullBytes(s) then Some(Failure(field, NullBytes))
    else if |s| > maxLen then Some(Failure(field, TooLong))
    else if !MatchesSafeId(s) then Some(Failure(field, BadCharacters))
    else None
  }

  function ValidateNodeID(s: string): Option<Failure> {
    ValidateStringID(s, "node_id", MAX_NODE_ID_LEN)
  }

  function ValidateHeartbeatTaskCount(n: nat): Option<Failure> {
    if n > MAX_TASKS_PER_HEARTBEAT then Some(Failure("tasks", TooMany)) else None
  }

  function ValidateText(s: string, field: string, maxLen: nat): Option<Failure> {
    if HasNullBytes(s) then Some(Failure(field, NullBytes))
    else if |s| > maxLen then Some(Failure(field, TooLong))
    else None
  }

  function ValidateAddress(s: string): Option<Failure> {
    ValidateText(s, "address", MAX_ADDRESS_LEN)
  }

  function ValidateVersion(s: string): Option<Failure> {
    ValidateText(s, "agent_version", MAX_VERSION_LEN)
  }

  predicate ValidNodeId(s: string) {
    MatchesSafeId(s) && |s| <= MAX_NODE_ID_LEN
  }

  // The four checks together accept exactly the non-empty IDs of at most 255 characters that start with a letter or
  // a digit and go on with letters, digits, hyphens, underscores and dots; the first check to fail names the reason.
  lemma AcceptedNodeIds(s: string)
    ensures ValidateNodeID(s).None? <==>
              && 1 <= |s| <= 255
              && ('a' <= s[0] <= 'z' || 'A' <= s[0] <= 'Z' || '0' <= s[0] <= '9')
              && forall i | 0 < i < |s| ::
                   'a' <= s[i] <= 'z' || 'A' <= s[i] <= 'Z' || '0' <= s[i] <= '9' || s[i] in "-_."
    ensures ValidateNodeID(s).None? <==> ValidNodeId(s)
    ensures ValidateNodeID(s).Some? ==>
              ValidateNodeID(s).value == Failure("node_id", if s == "" then Empty
                                                            else if '\0' in s then NullBytes
                                                            else if |s| > 255 then TooLong
                                                            else BadCharacters)
  {
    if MatchesSafeId(s) {
      forall i | 0 <= i < |s|
        ensures s[i] != '\0'
      {
        assert i == 0 || IsAlphanumeric(s[i]) || s[i] in {'-', '_', '.'};
      }
    }
    assert "-_."[0] == '-' && "-_."[1] == '_' && "-_."[2] == '.';
    assert forall c | c in "-_." :: c in {'-', '_', '.'};
  }

  // Addresses and versions may be empty and hold any characters but NUL, up to 512 and 64 of them.
  lemma AcceptedTexts(s: string)
    ensures ValidateAddress(s) == if '\0' in s then Some(Failure("address", NullBytes))
                                  else if |s| > 512 then Some(Failure("address", TooLong))
                                  else None
    ensures ValidateVersion(s) == if '\0' in s then Some(Failure("agent_version", NullBytes))
                                  else if |s| > 64 then Some(Failure("agent_version", TooLong))
                                  else None
    ensures forall n: nat ::
              ValidateHeartbeatTaskCount(n) == if n > 10_000 then Some(Failure("tasks", TooMany)) else None
  {
  }

  // The scan of the handlers: the first failing check decides, later ones are not looked at.
  method ValidateAll(checks: seq<Option<Failure>>) returns (err: Option<Failure>, position: nat)
    ensures err.None? <==> forall i | 0 <= i < |checks| :: checks[i].None?
    ensures err.Some? ==>
              position < |checks| && checks[position] == err && forall i | 0 <= i < position :: checks[i].None?
  {
    position := 0;
    for i := 0 to |checks|
      invariant forall j | 0 <= j < i :: checks[j].None?
    {
      if checks[i].Some? {
        return checks[i], i;
      }
    }
    return None, |checks|;
  }
}

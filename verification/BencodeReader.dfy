/** The cursor loops of the bencode reader, against its specification
    (crates/nodenet-protocols/src/udp_extended.rs). */
module BencodeReader {
  import opened Wire
  import opened Bencode
  import opened Dht

  lemma {:induction false} LeadingAtLeast(s: Bytes, n: nat)
    requires n <= |s| && AllDigits(s[..n])
    ensures LeadingDigits(s) >= n
    decreases n
  {
    if n > 0 {
      assert s[..n][0] == s[0];
      forall i | 0 <= i < n - 1 ensures IsDigit(s[1..][i]) { assert s[..n][i + 1] == s[i + 1]; }
      LeadingAtLeast(s[1..], n - 1);
    }
  }

  lemma {:induction false} LeadingIs(s: Bytes, n: nat)
    requires n <= |s| && AllDigits(s[..n]) && (n == |s| || !IsDigit(s[n]))
    ensures LeadingDigits(s) == n
    decreases n
  {
    if n > 0 {
      assert s[..n][0] == s[0];
      forall i | 0 <= i < n - 1 ensures IsDigit(s[1..][i]) { assert s[..n][i + 1] == s[i + 1]; }
      LeadingIs(s[1..], n - 1);
    }
  }

  /** The digits of a length, as the loop has read them. */
  predicate Reading(left: Bytes, n: nat, length: nat) {
    && n <= |left| && n <= MAX_LENGTH_DIGITS && AllDigits(left[..n]) && length == Number(left[..n])
    && (n > 0 && left[0] == ZERO ==> n == 1 && |left| > 1 && left[1] == COLON)
  }

  lemma ReadingStep(left: Bytes, n: nat, length: nat)
    requires Reading(left, n, length) && n < |left| && IsDigit(left[n]) && n < MAX_LENGTH_DIGITS
    requires n == 0 && left[0] == ZERO ==> |left| > 1 && left[1] == COLON
    ensures Reading(left, n + 1, length * 10 + (left[n] - 48))
  {
    assert left[..n + 1][..n] == left[..n] && left[..n + 1] == left[..n] + [left[n]];
  }

  /** `parse_bencode_bytes`: the string at the cursor and the cursor behind it. */
  method ParseBytes(value: Bytes, start: nat) returns (r: Option<Text>)
    requires start <= |value|
    ensures r == ReadStr(value[start..])
  {
    hide LeadingDigits, Number, Reading;
    ghost var left := value[start..];
    var cursor, length: nat, digits: nat := start, 0, 0;
    ReadingNothing(left);
    while cursor < |value| && IsDigit(value[cursor])
      invariant cursor == start + digits <= |value| && digits <= MAX_LENGTH_DIGITS && Reading(left, digits, length)
    {
      if digits == 0 && value[cursor] == ZERO && (cursor + 1 >= |value| || value[cursor + 1] != COLON) {
        ZeroRejected(left);
        return None;
      }
      if digits == MAX_LENGTH_DIGITS {
        TooManyDigits(left, length);
        return None;
      }
      ReadingStep(left, digits, length);
      length := length * 10 + (value[cursor] - 48);
      digits := digits + 1;
      cursor := cursor + 1;
    }
    ReadingDone(left, digits, length);
    if digits == 0 || cursor >= |value| || value[cursor] != COLON { return None; }
    cursor := cursor + 1;
    var end := cursor + length;
    if end > |value| { return None; }
    assert left[digits + 1..digits + 1 + length] == value[cursor..end];
    r := Some(Text(value[cursor..end], end - start));
  }

  lemma ReadingNothing(left: Bytes)
    ensures Reading(left, 0, 0)
  {
    assert left[..0] == [];
  }

  lemma ZeroRejected(left: Bytes)
    requires left != [] && left[0] == ZERO && (|left| == 1 || left[1] != COLON)
    ensures ReadStr(left).None?
  {
    hide LeadingDigits;
  }

  lemma TooManyDigits(left: Bytes, length: nat)
    requires Reading(left, MAX_LENGTH_DIGITS, length) && MAX_LENGTH_DIGITS < |left| && IsDigit(left[MAX_LENGTH_DIGITS])
    ensures ReadStr(left).None?
  {
    hide LeadingDigits, Number;
    assert left[..MAX_LENGTH_DIGITS + 1] == left[..MAX_LENGTH_DIGITS] + [left[MAX_LENGTH_DIGITS]];
    LeadingAtLeast(left, MAX_LENGTH_DIGITS + 1);
  }

  lemma ReadingDone(left: Bytes, n: nat, length: nat)
    requires Reading(left, n, length) && (n == |left| || !IsDigit(left[n]))
    ensures n == LeadingDigits(left) && length == Number(left[..n]) && n <= MAX_LENGTH_DIGITS
    ensures n > 0 && left[0] == ZERO ==> n == 1
  {
    hide LeadingDigits, Number;
    LeadingIs(left, n);
  }

  /** The digits of a number at the cursor. */
  method CountDigits(value: Bytes, start: nat) returns (n: nat)
    requires start <= |value|
    ensures n == LeadingDigits(value[start..])
  {
    n := 0;
    while start + n < |value| && IsDigit(value[start + n])
      invariant start + n <= |value| && AllDigits(value[start..][..n])
    {
      assert value[start..][..n + 1] == value[start..][..n] + [value[start + n]];
      n := n + 1;
    }
    LeadingIs(value[start..], n);
  }

  method ParseNumber(value: Bytes, start: nat) returns (r: Option<nat>)
    requires start < |value| && value[start] == LETTER_I
    ensures r == ReadNum(value[start..])
  {
    hide LeadingDigits;
    ghost var left := value[start..];
    var cursor, negative := start + 1, false;
    if cursor < |value| && value[cursor] == MINUS { cursor, negative := cursor + 1, true; }
    assert left[cursor - start..] == value[cursor..];
    var n := CountDigits(value, cursor);
    var end := cursor + n;
    if n == 0 || end >= |value| || value[end] != LETTER_E { return None; }
    if value[cursor] == ZERO && (n > 1 || negative) { return None; }
    r := Some(end + 1 - start);
  }

  /** `skip_bencode_value`: the bytes of the value at the cursor. */
  method SkipValue(value: Bytes, start: nat, depth: nat) returns (r: Option<nat>)
    requires start <= |value|
    ensures r == Skip(value[start..], depth)
    decreases |value| - start, 1, 0
  {
    hide ReadStr, ReadNum, Skip, SkipEntries;
    ghost var left := value[start..];
    SkipElse(left, depth);
    if depth > MAX_DEPTH || start >= |value| { return None; }
    SkipCases(left, depth);
    var kind := value[start];
    if IsDigit(kind) {
      var text := ParseBytes(value, start);
      return if text.None? then None else Some(text.value.length);
    }
    if kind == LETTER_I {
      r := ParseNumber(value, start);
      return;
    }
    if kind != LETTER_L && kind != LETTER_D { return None; }
    assert left[1..] == value[start + 1..];
    var rest := SkipContainer(value, start + 1, kind == LETTER_D, depth + 1);
    r := if rest.None? then None else Some(1 + rest.value);
  }

  lemma SkipElse(left: Bytes, depth: nat)
    ensures depth > MAX_DEPTH || left == [] ==> Skip(left, depth).None?
    ensures left != [] && !IsDigit(left[0]) && left[0] != LETTER_I && left[0] != LETTER_L && left[0] != LETTER_D ==>
              Skip(left, depth).None?
  {
    hide ReadStr, ReadNum, SkipEntries;
  }

  /** What is left of a container is what the loop still has to read. */
  ghost predicate Remaining(left: Bytes, keyed: bool, depth: nat, done: nat, prior: Option<Bytes>, passes: nat) {
    done <= |left| &&
    SkipEntries(left, keyed, None, MAX_ENTRIES + 1, depth)
    == (match SkipEntries(left[done..], keyed, prior, passes, depth) case None => None case Some(n) => Some(done + n))
  }

  /** The loop over the entries of a container. */
  method SkipContainer(value: Bytes, start: nat, keyed: bool, depth: nat) returns (r: Option<nat>)
    requires start <= |value|
    ensures r == SkipEntries(value[start..], keyed, None, MAX_ENTRIES + 1, depth)
    decreases |value| - start, 2, 0
  {
    hide ReadStr, Skip, SkipEntries, Less, Remaining;
    ghost var left := value[start..];
    var cursor, prior: Option<Bytes> := start, None;
    RemainingStart(left, keyed, depth);
    var pass := 0;
    while pass < MAX_ENTRIES + 1
      invariant 0 <= pass <= MAX_ENTRIES + 1 && start <= cursor <= |value|
      invariant Remaining(left, keyed, depth, cursor - start, prior, MAX_ENTRIES + 1 - pass)
    {
      assert left[cursor - start..] == value[cursor..];
      RemainingStep(left, keyed, depth, cursor - start, prior, MAX_ENTRIES + 1 - pass);
      if cursor < |value| && value[cursor] == LETTER_E { return Some(cursor + 1 - start); }
      var from := cursor;
      var next := prior;
      if keyed {
        var key := ParseBytes(value, cursor);
        if key.None? { return None; }
        if prior.Some? && !Less(prior.value, key.value.bytes) { return None; }
        next := Some(key.value.bytes);
        from := cursor + key.value.length;
      }
      assert left[cursor - start..][from - cursor..] == value[from..];
      var skipped := SkipValue(value, from, depth);
      if skipped.None? { return None; }
      cursor := from + skipped.value;
      prior := next;
      pass := pass + 1;
    }
    RemainingStep(left, keyed, depth, cursor - start, prior, 0);
    r := None;
  }

  lemma RemainingStart(left: Bytes, keyed: bool, depth: nat)
    ensures Remaining(left, keyed, depth, 0, None, MAX_ENTRIES + 1)
  {
    assert left[0..] == left;
  }

  function KeyAt(here: Bytes, keyed: bool): Option<Text> { if keyed then ReadStr(here) else Some(Text([], 0)) }

  /** One pass that stops. */
  lemma EntriesStop(here: Bytes, keyed: bool, prior: Option<Bytes>, passes: nat, depth: nat)
    requires passes > 0 && here != [] && here[0] != LETTER_E
    requires var key := KeyAt(here, keyed);
             key.None? || (keyed && !After(prior, key.value.bytes)) || Skip(here[key.value.length..], depth).None?
    ensures SkipEntries(here, keyed, prior, passes, depth).None?
  {
    hide ReadStr, Skip, Less;
  }

  /** One pass that goes on. */
  lemma EntriesGo(here: Bytes, keyed: bool, prior: Option<Bytes>, passes: nat, depth: nat, key: Text, n: nat,
      rest: Option<nat>)
    requires passes > 0 && here != [] && here[0] != LETTER_E && KeyAt(here, keyed) == Some(key)
    requires (keyed ==> After(prior, key.bytes)) && key.length <= |here| && Skip(here[key.length..], depth) == Some(n)
    requires rest
             == SkipEntries(here[key.length + n..], keyed, if keyed then Some(key.bytes) else prior, passes - 1, depth)
    ensures SkipEntries(here, keyed, prior, passes, depth) == if rest.None? then None
        else Some(key.length + n + rest.value)
  {
    hide ReadStr, Skip, Less;
  }

  lemma RemainingStep(left: Bytes, keyed: bool, depth: nat, done: nat, prior: Option<Bytes>, passes: nat)
    requires Remaining(left, keyed, depth, done, prior, passes)
    ensures var here := left[done..];
            var all := SkipEntries(left, keyed, None, MAX_ENTRIES + 1, depth);
            && (passes == 0 || here == [] ==> all.None?)
            && (passes > 0 && here != [] && here[0] == LETTER_E ==> all == Some(done + 1))
            && (passes > 0 && here != [] && here[0] != LETTER_E ==>
                  var key := if keyed then ReadStr(here) else Some(Text([], 0));
                  if key.None? || (keyed && !After(prior, key.value.bytes)) then all.None?
                  else
                    var from := key.value.length;
                    match Skip(here[from..], depth)
                    case None => all.None?
                    case Some(n) =>
                      Remaining(left, keyed, depth, done + from + n,
                                if keyed then Some(key.value.bytes) else prior, passes - 1))
  {
    hide ReadStr, Skip, Less, SkipEntries;
    var here := left[done..];
    EntriesEnd(here, keyed, prior, passes, depth);
    if passes > 0 && here != [] && here[0] != LETTER_E {
      var key := KeyAt(here, keyed);
      if key.None? || (keyed && !After(prior, key.value.bytes)) || Skip(here[key.value.length..], depth).None? {
        EntriesStop(here, keyed, prior, passes, depth);
      } else {
        var k, n := key.value, Skip(here[key.value.length..], depth).value;
        Shift(left, done, k.length + n);
        EntriesGo(here, keyed, prior, passes, depth, k, n,
                  SkipEntries(here[k.length + n..], keyed, if keyed then Some(k.bytes) else prior, passes - 1, depth));
      }
    }
  }

  lemma EntriesEnd(here: Bytes, keyed: bool, prior: Option<Bytes>, passes: nat, depth: nat)
    ensures passes == 0 || here == [] ==> SkipEntries(here, keyed, prior, passes, depth).None?
    ensures passes > 0 && here != [] && here[0] == LETTER_E
        ==> SkipEntries(here, keyed, prior, passes, depth) == Some(1)
  {
    hide ReadStr, Skip, Less;
  }

  lemma Shift(left: Bytes, done: nat, n: nat)
    requires done + n <= |left|
    ensures left[done..][n..] == left[done + n..]
  {
  }

  // ---------------------------------------------------------------------------------------
  // Messages.

  ghost predicate ResponseRemaining(left: Bytes, done: nat, prior: Option<Bytes>, hasId: bool, passes: nat) {
    done <= |left| &&
    ResponseEntries(left, None, false, MESSAGE_PASSES)
    == match ResponseEntries(left[done..], prior, hasId, passes)
       case Err(e) => Err(e)
       case Ok(a) => Ok(Answered(a.hasId, done + a.length))
  }

  lemma ResponseStart(left: Bytes)
    ensures ResponseRemaining(left, 0, None, false, MESSAGE_PASSES)
  {
    assert left[0..] == left;
  }

  /** The value of one response entry: its length, or the failure. */
  function ResponseValue(here: Bytes, key: Text, hasId: bool): Result<nat, DhtError>
    requires key.length <= |here|
  {
    var isId := key.bytes == KEY_ID;
    var value := if isId then TextLength(ReadStr(here[key.length..]), 20) else Skip(here[key.length..], 1);
    if value.None? then Err(Malformed) else if isId && hasId then Err(RepeatedKey) else Ok(value.value)
  }

  lemma ResponseStep(left: Bytes, done: nat, prior: Option<Bytes>, hasId: bool, passes: nat)
    requires ResponseRemaining(left, done, prior, hasId, passes)
    ensures var here := left[done..];
            var all := ResponseEntries(left, None, false, MESSAGE_PASSES);
            && (passes == 0 || here == [] ==> all == Err(Malformed))
            && (passes > 0 && here != [] && here[0] == LETTER_E ==> all == Ok(Answered(hasId, done + 1)))
            && (passes > 0 && here != [] && here[0] != LETTER_E ==>
                  var key := ReadStr(here);
                  if key.None? || !After(prior, key.value.bytes) then all == Err(Malformed)
                  else
                    match ResponseValue(here, key.value, hasId)
                    case Err(e) => all == Err(e)
                    case Ok(n) =>
                      ResponseRemaining(left, done + key.value.length + n, Some(key.value.bytes),
                                        hasId || key.value.bytes == KEY_ID, passes - 1))
  {
    hide ReadStr, Skip, Less, ResponseEntries, ResponseValue;
    var here := left[done..];
    ResponseEnd(here, prior, hasId, passes);
    if passes > 0 && here != [] && here[0] != LETTER_E && ReadStr(here).Some?
        && After(prior, ReadStr(here).value.bytes) {
      var key := ReadStr(here).value;
      var value := ResponseValue(here, key, hasId);
      if value.Err? {
        ResponseStop(here, prior, hasId, passes, value.error);
      } else {
        ValueInside(here, key, hasId);
        Shift(left, done, key.length + value.value);
        ResponseGo(here, prior, hasId, passes, key, value.value,
                   ResponseEntries(here[key.length + value.value..], Some(key.bytes),
                                   hasId || key.bytes == KEY_ID, passes - 1));
      }
    }
  }

  lemma ValueInside(here: Bytes, key: Text, hasId: bool)
    requires key.length <= |here| && ResponseValue(here, key, hasId).Ok?
    ensures key.length + ResponseValue(here, key, hasId).value <= |here|
  {
  }

  lemma ResponseEnd(here: Bytes, prior: Option<Bytes>, hasId: bool, passes: nat)
    ensures passes == 0 || here == [] ==> ResponseEntries(here, prior, hasId, passes) == Err(Malformed)
    ensures passes > 0 && here != [] && here[0] == LETTER_E
        ==> ResponseEntries(here, prior, hasId, passes) == Ok(Answered(hasId, 1))
    ensures (&& passes > 0 && here != [] && here[0] != LETTER_E
             && (ReadStr(here).None? || !After(prior, ReadStr(here).value.bytes))) ==>
              ResponseEntries(here, prior, hasId, passes) == Err(Malformed)
  {
    hide ReadStr, Skip, Less;
  }

  lemma ResponseStop(here: Bytes, prior: Option<Bytes>, hasId: bool, passes: nat, e: DhtError)
    requires passes > 0 && here != [] && here[0] != LETTER_E && ReadStr(here).Some?
        && After(prior, ReadStr(here).value.bytes)
    requires ResponseValue(here, ReadStr(here).value, hasId) == Err(e)
    ensures ResponseEntries(here, prior, hasId, passes) == Err(e)
  {
    hide ReadStr, Skip, Less;
  }

  lemma ResponseGo(here: Bytes, prior: Option<Bytes>, hasId: bool, passes: nat, key: Text, n: nat,
      rest: Result<Answered, DhtError>)
    requires passes > 0 && here != [] && here[0] != LETTER_E && ReadStr(here) == Some(key) && After(prior, key.bytes)
    requires ResponseValue(here, key, hasId) == Ok(n) && key.length + n <= |here|
    requires rest == ResponseEntries(here[key.length + n..], Some(key.bytes), hasId || key.bytes == KEY_ID, passes - 1)
    ensures ResponseEntries(here, prior, hasId, passes)
            == match rest case Err(e) => Err(e) case Ok(a) => Ok(Answered(a.hasId, key.length + n + a.length))
  {
    hide ReadStr, Skip, Less;
  }

  /** `parse_dht_response_dictionary`, behind its opening letter. */
  method ParseResponse(value: Bytes, start: nat) returns (r: Result<Answered, DhtError>)
    requires start <= |value|
    ensures r == ResponseEntries(value[start..], None, false, MESSAGE_PASSES)
  {
    hide ReadStr, Skip, Less, ResponseEntries, ResponseRemaining;
    ghost var left := value[start..];
    var cursor: nat, prior: Option<Bytes>, hasId := start, None, false;
    ResponseStart(left);
    var pass := 0;
    while pass < MESSAGE_PASSES
      invariant 0 <= pass <= MESSAGE_PASSES && start <= cursor <= |value|
      invariant ResponseRemaining(left, cursor - start, prior, hasId, MESSAGE_PASSES - pass)
    {
      assert left[cursor - start..] == value[cursor..];
      ResponseStep(left, cursor - start, prior, hasId, MESSAGE_PASSES - pass);
      if cursor < |value| && value[cursor] == LETTER_E { return Ok(Answered(hasId, cursor + 1 - start)); }
      var key := ParseBytes(value, cursor);
      if cursor == |value| || key.None? { return Err(Malformed); }
      if prior.Some? && !Less(prior.value, key.value.bytes) { return Err(Malformed); }
      var from := cursor + key.value.length;
      assert left[cursor - start..][key.value.length..] == value[from..];
      prior := Some(key.value.bytes);
      if key.value.bytes == KEY_ID {
        var id := ParseBytes(value, from);
        if id.None? || |id.value.bytes| != 20 { return Err(Malformed); }
        if hasId { return Err(RepeatedKey); }
        hasId := true;
        cursor := from + id.value.length;
      } else {
        var skipped := SkipValue(value, from, 1);
        if skipped.None? { return Err(Malformed); }
        cursor := from + skipped.value;
      }
      pass := pass + 1;
    }
    ResponseStep(left, cursor - start, prior, hasId, 0);
    r := Err(Malformed);
  }

  /** One entry of a message. */
  method ParseEntry(value: Bytes, key: Bytes, cursor: nat, f: Found, require: bool)
    returns (r: Result<Progress, DhtError>)
    requires cursor <= |value|
    ensures r == EntryValue(key, value[cursor..], f, require)
  {
    hide ReadStr, Skip, ResponseEntries;
    if key == KEY_T || key == KEY_Y {
      var text := ParseBytes(value, cursor);
      if text.None? || |text.value.bytes| != (if key == KEY_T then 2 else 1) { return Err(Malformed); }
      if (key == KEY_T && f.transaction.Some?) || (key == KEY_Y && f.kind.Some?) { return Err(RepeatedKey); }
      var found := if key == KEY_T then f.(transaction := Some(text.value.bytes))
          else f.(kind := Some(text.value.bytes));
      return Ok(Progress(found, text.value.length));
    }
    if key == KEY_R && require {
      if f.responseId { return Err(RepeatedKey); }
      if cursor == |value| || value[cursor] != LETTER_D { return Err(Malformed); }
      assert value[cursor..][1..] == value[cursor + 1..];
      var a := ParseResponse(value, cursor + 1);
      if a.Err? { return Err(a.error); }
      return Ok(Progress(f.(responseId := a.value.hasId), 1 + a.value.length));
    }
    var skipped := SkipValue(value, cursor, 0);
    r := if skipped.None? then Err(Malformed) else Ok(Progress(f, skipped.value));
  }

  lemma MessageStep(here: Bytes, prior: Option<Bytes>, f: Found, passes: nat, kind: Bytes, require: bool)
    ensures var all := MessageEntries(here, prior, f, passes, kind, require);
            && (passes == 0 || here == [] ==> all == Err(Malformed))
            && (passes > 0 && here != [] && here[0] == LETTER_E ==>
                  all == if |here| == 1 && f.transaction.Some? && f.kind == Some(kind) && f.responseId
                         then Ok(f.transaction.value) else Err(Malformed))
            && (passes > 0 && here != [] && here[0] != LETTER_E ==>
                  var key := ReadStr(here);
                  if key.None? || !After(prior, key.value.bytes) then all == Err(Malformed)
                  else
                    match EntryValue(key.value.bytes, here[key.value.length..], f, require)
                    case Err(e) => all == Err(e)
                    case Ok(p) =>
                      all == MessageEntries(here[key.value.length + p.length..], Some(key.value.bytes), p.found,
                          passes - 1, kind, require))
  {
    hide ReadStr, EntryValue, Less;
  }

  /** `parse_dht_message`. */
  method ParseDhtMessage(value: Bytes, kind: Bytes, require: bool) returns (r: Result<Bytes, DhtError>)
    ensures r == ParseMessage(value, kind, require)
  {
    hide ReadStr, EntryValue, Less, MessageEntries;
    if |value| > MAX_MESSAGE_BYTES || value == [] || value[0] != LETTER_D { return Err(Malformed); }
    var cursor: nat, prior: Option<Bytes>, found := 1, None, Found(None, None, !require);
    var pass := 0;
    while pass < MESSAGE_PASSES
      invariant 0 <= pass <= MESSAGE_PASSES && cursor <= |value|
      invariant MessageEntries(value[cursor..], prior, found, MESSAGE_PASSES - pass, kind, require)
          == ParseMessage(value, kind, require)
    {
      MessageStep(value[cursor..], prior, found, MESSAGE_PASSES - pass, kind, require);
      if cursor < |value| && value[cursor] == LETTER_E {
        if cursor + 1 != |value| { return Err(Malformed); }
        return if found.transaction.Some? && found.kind == Some(kind) && found.responseId
               then Ok(found.transaction.value) else Err(Malformed);
      }
      var key := ParseBytes(value, cursor);
      if cursor == |value| || key.None? { return Err(Malformed); }
      if prior.Some? && !Less(prior.value, key.value.bytes) { return Err(Malformed); }
      var from := cursor + key.value.length;
      Shift(value, cursor, key.value.length);
      var p := ParseEntry(value, key.value.bytes, from, found, require);
      if p.Err? { return Err(p.error); }
      Shift(value, cursor, key.value.length + p.value.length);
      cursor, prior, found := from + p.value.length, Some(key.value.bytes), p.value.found;
      pass := pass + 1;
    }
    MessageStep(value[cursor..], prior, found, 0, kind, require);
    r := Err(Malformed);
  }
}

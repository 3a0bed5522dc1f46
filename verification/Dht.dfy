/** Hash-table messages, the ping that is sent, and the cursor loops of the reader
    (crates/nodenet-protocols/src/udp_extended.rs; BEP 5). */
module Dht {
  import opened Wire
  import opened Bencode

  const KEY_T: Bytes := [116]
  const KEY_Y: Bytes := [121]
  const KEY_R: Bytes := [114]
  const KEY_ID: Bytes := [105, 100]
  const MAX_MESSAGE_BYTES: nat := 512
  const MESSAGE_PASSES: nat := 32

  /** The source reports both as malformed; a repeated key has its own name here so that it can be ruled out. */
  datatype DhtError = Malformed | RepeatedKey

  /** What the loop over a message has found. */
  datatype Found = Found(transaction: Option<Bytes>, kind: Option<Bytes>, responseId: bool)

  datatype Answered = Answered(hasId: bool, length: nat)

  /** The response dictionary behind its opening letter: whether it has an id, and the bytes it takes. */
  function ResponseEntries(left: Bytes, prior: Option<Bytes>, hasId: bool, passes: nat): (r: Result<Answered, DhtError>)
    ensures r.Ok? ==> 0 < r.value.length <= |left|
    decreases passes
  {
    if passes == 0 || left == [] then Err(Malformed)
    else if left[0] == LETTER_E then Ok(Answered(hasId, 1))
    else
      var key := ReadStr(left);
      if key.None? || !After(prior, key.value.bytes) then Err(Malformed)
      else
        var k, isId := key.value.length, key.value.bytes == KEY_ID;
        var value := if isId then TextLength(ReadStr(left[k..]), 20) else Skip(left[k..], 1);
        if value.None? then Err(Malformed)
        else if isId && hasId then Err(RepeatedKey)
        else
          match ResponseEntries(left[k + value.value..], Some(key.value.bytes), hasId || isId, passes - 1)
          case Err(e) => Err(e)
          case Ok(a) => Ok(Answered(a.hasId, k + value.value + a.length))
  }

  function TextLength(t: Option<Text>, length: nat): (r: Option<nat>)
    ensures r.Some? ==> t.Some? && r.value == t.value.length && |t.value.bytes| == length
  {
    if t.Some? && |t.value.bytes| == length then Some(t.value.length) else None
  }

  datatype Progress = Progress(found: Found, length: nat)

  /** One entry's value, by its key. */
  function EntryValue(key: Bytes, left: Bytes, f: Found, require: bool): (r: Result<Progress, DhtError>)
    ensures r.Ok? ==> r.value.length <= |left|
  {
    if key == KEY_T then
      var t := ReadStr(left);
      if t.None? || |t.value.bytes| != 2 then Err(Malformed)
      else if f.transaction.Some? then Err(RepeatedKey)
      else Ok(Progress(f.(transaction := Some(t.value.bytes)), t.value.length))
    else if key == KEY_Y then
      var t := ReadStr(left);
      if t.None? || |t.value.bytes| != 1 then Err(Malformed)
      else if f.kind.Some? then Err(RepeatedKey)
      else Ok(Progress(f.(kind := Some(t.value.bytes)), t.value.length))
    else if key == KEY_R && require then
      if f.responseId then Err(RepeatedKey)
      else if left == [] || left[0] != LETTER_D then Err(Malformed)
      else
        match ResponseEntries(left[1..], None, false, MESSAGE_PASSES)
        case Err(e) => Err(e)
        case Ok(a) => Ok(Progress(f.(responseId := a.hasId), 1 + a.length))
    else
      match Skip(left, 0)
      case None => Err(Malformed)
      case Some(n) => Ok(Progress(f, n))
  }

  /** The entries of a message from `left` to its end. */
  function MessageEntries(left: Bytes, prior: Option<Bytes>, f: Found, passes: nat, kind: Bytes, require: bool)
    : Result<Bytes, DhtError>
    decreases passes
  {
    if passes == 0 || left == [] then Err(Malformed)
    else if left[0] == LETTER_E then
      if |left| == 1 && f.transaction.Some? && f.kind == Some(kind) && f.responseId
      then Ok(f.transaction.value) else Err(Malformed)
    else
      var key := ReadStr(left);
      if key.None? || !After(prior, key.value.bytes) then Err(Malformed)
      else
        var k := key.value.length;
        match EntryValue(key.value.bytes, left[k..], f, require)
        case Err(e) => Err(e)
        case Ok(p) => MessageEntries(left[k + p.length..], Some(key.value.bytes), p.found, passes - 1, kind, require)
  }

  /** `parse_dht_message`: the transaction. */
  function ParseMessage(value: Bytes, kind: Bytes, require: bool): Result<Bytes, DhtError> {
    if |value| > MAX_MESSAGE_BYTES || value == [] || value[0] != LETTER_D then Err(Malformed)
    else MessageEntries(value[1..], None, Found(None, None, !require), MESSAGE_PASSES, kind, require)
  }

  // ---------------------------------------------------------------------------------------
  // Repeated keys cannot occur.

  lemma {:induction false} LessIrreflexive(a: Bytes)
    ensures !Less(a, a)
    decreases |a|
  {
    if a != [] { LessIrreflexive(a[1..]); }
  }

  lemma {:induction false} LessTransitive(a: Bytes, b: Bytes, c: Bytes)
    requires Less(a, b) && Less(b, c)
    ensures Less(a, c)
    decreases |a|
  {
    if a != [] && a[0] == b[0] == c[0] { LessTransitive(a[1..], b[1..], c[1..]); }
  }

  /** The keys so far have reached `key`. */
  predicate Reached(prior: Option<Bytes>, key: Bytes) { prior.Some? && !Less(prior.value, key) }

  lemma ReachedStays(prior: Option<Bytes>, next: Bytes, key: Bytes)
    requires Reached(prior, key) && After(prior, next)
    ensures next != key && Reached(Some(next), key)
  {
    if Less(next, key) { LessTransitive(prior.value, next, key); }
  }

  lemma {:induction false} ResponseNeverRepeats(left: Bytes, prior: Option<Bytes>, hasId: bool, passes: nat)
    requires hasId ==> Reached(prior, KEY_ID)
    ensures ResponseEntries(left, prior, hasId, passes) != Err(RepeatedKey)
    decreases passes
  {
    hide ReadStr, Skip, Less;
    if passes == 0 || left == [] || left[0] == LETTER_E || ReadStr(left).None? { return; }
    var key := ReadStr(left).value;
    if !After(prior, key.bytes) { return; }
    var k, isId := key.length, key.bytes == KEY_ID;
    if hasId { ReachedStays(prior, key.bytes, KEY_ID); }
    LessIrreflexive(KEY_ID);
    var value := if isId then TextLength(ReadStr(left[k..]), 20) else Skip(left[k..], 1);
    if value.Some? { ResponseNeverRepeats(left[k + value.value..], Some(key.bytes), hasId || isId, passes - 1); }
  }

  /** Whatever has been found, its key has been reached. */
  predicate Ordered(prior: Option<Bytes>, f: Found, require: bool) {
    && (f.transaction.Some? ==> Reached(prior, KEY_T)) && (f.kind.Some? ==> Reached(prior, KEY_Y))
    && (require && f.responseId ==> Reached(prior, KEY_R))
  }

  lemma EntryNeverRepeats(prior: Option<Bytes>, key: Bytes, left: Bytes, f: Found, require: bool)
    requires Ordered(prior, f, require) && After(prior, key)
    ensures EntryValue(key, left, f, require) != Err(RepeatedKey)
    ensures EntryValue(key, left, f, require).Ok?
        ==> Ordered(Some(key), EntryValue(key, left, f, require).value.found, require)
  {
    hide ReadStr, Skip, Less, ResponseEntries;
    if f.transaction.Some? { ReachedStays(prior, key, KEY_T); }
    if f.kind.Some? { ReachedStays(prior, key, KEY_Y); }
    if require && f.responseId { ReachedStays(prior, key, KEY_R); }
    LessIrreflexive(key);
    if left != [] { ResponseNeverRepeats(left[1..], None, false, MESSAGE_PASSES); }
  }

  lemma {:induction false} EntriesNeverRepeat(left: Bytes, prior: Option<Bytes>, f: Found, passes: nat, kind: Bytes,
      require: bool)
    requires Ordered(prior, f, require)
    ensures MessageEntries(left, prior, f, passes, kind, require) != Err(RepeatedKey)
    decreases passes
  {
    hide ReadStr, EntryValue, Less, Ordered;
    if passes == 0 || left == [] || left[0] == LETTER_E || ReadStr(left).None? { return; }
    var key := ReadStr(left).value;
    if !After(prior, key.bytes) { return; }
    EntryNeverRepeats(prior, key.bytes, left[key.length..], f, require);
    var r := EntryValue(key.bytes, left[key.length..], f, require);
    if r.Ok? {
      EntriesNeverRepeat(left[key.length + r.value.length..], Some(key.bytes), r.value.found, passes - 1, kind,
          require);
    }
  }

  /** The duplicate-key rejections are unreachable: strictly increasing keys rule them out on every input. */
  lemma NeverRepeats(value: Bytes, kind: Bytes, require: bool)
    ensures ParseMessage(value, kind, require) != Err(RepeatedKey)
  {
    hide MessageEntries;
    if value != [] {
      EntriesNeverRepeat(value[1..], None, Found(None, None, !require), MESSAGE_PASSES, kind, require);
    }
  }

  // ---------------------------------------------------------------------------------------
  // Messages that parse.

  /** The value under a key. */
  function Get(es: Entries, key: Bytes): Option<Value> {
    match es
    case NoEntries => None
    case Entry(k, value, more) => if k == key then Some(value) else Get(more, key)
  }

  predicate IsText(v: Value, length: nat) { v.Str? && |v.bytes| == length }

  /** Response dictionaries: increasing keys, an id of twenty bytes if any, other values within the limits. */
  predicate ResponseFits(es: Entries, room: nat, prior: Option<Bytes>)
    decreases es
  {
    match es
    case NoEntries => true
    case Entry(key, value, more) =>
      && room > 0 && StrFits(key) && After(prior, key)
      && (if key == KEY_ID then IsText(value, 20) else Fits(value, 1))
      && ResponseFits(more, room - 1, Some(key))
  }

  /** What may stand under a key of a message. */
  predicate ValueFits(key: Bytes, v: Value, require: bool) {
    if key == KEY_T then IsText(v, 2)
    else if key == KEY_Y then IsText(v, 1)
    else if key == KEY_R && require then v.Dict? && ResponseFits(v.entries, MESSAGE_PASSES - 1, None)
    else Fits(v, 0)
  }

  predicate MessageFits(es: Entries, room: nat, prior: Option<Bytes>, require: bool)
    decreases es
  {
    match es
    case NoEntries => true
    case Entry(key, value, more) =>
      && room > 0 && StrFits(key) && After(prior, key) && ValueFits(key, value, require)
      && MessageFits(more, room - 1, Some(key), require)
  }

  predicate HasId(v: Value) { v.Dict? && Get(v.entries, KEY_ID).Some? }

  /** A message of a kind with a transaction and, where required, a response that has an id. */
  predicate IsMessage(es: Entries, kind: Bytes, require: bool, transaction: Bytes) {
    && MessageFits(es, MESSAGE_PASSES - 1, None, require)
    && Get(es, KEY_T) == Some(Str(transaction)) && Get(es, KEY_Y) == Some(Str(kind))
    && (require ==> Get(es, KEY_R).Some? && HasId(Get(es, KEY_R).value))
  }

  // Responses.

  lemma {:induction false} ResponseRead(es: Entries, prior: Option<Bytes>, hasId: bool, room: nat, rest: Bytes)
    requires ResponseFits(es, room, prior) && (hasId ==> Reached(prior, KEY_ID))
    ensures ResponseEntries(PrintEntries(es) + rest, prior, hasId, room + 1)
            == Ok(Answered(hasId || Get(es, KEY_ID).Some?, |PrintEntries(es)|))
    decreases es
  {
    hide PrintStr, Print, Fits, StrFits, ResponseEntries, Reached, After;
    match es
    case NoEntries => ResponseEnds(prior, hasId, room + 1, rest);
    case Entry(key, value, more) =>
      var next := PrintEntries(more) + rest;
      assert PrintEntries(es) + rest == PrintStr(key) + Print(value) + next;
      ResponseStep(key, value, next, prior, hasId, room + 1);
      ResponseRead(more, Some(key), hasId || key == KEY_ID, room - 1, rest);
  }

  lemma ResponseEnds(prior: Option<Bytes>, hasId: bool, passes: nat, rest: Bytes)
    requires passes >= 1
    ensures ResponseEntries([LETTER_E] + rest, prior, hasId, passes) == Ok(Answered(hasId, 1))
  {
  }

  /** One entry of a response is read. */
  lemma ResponseStep(key: Bytes, value: Value, next: Bytes, prior: Option<Bytes>, hasId: bool, passes: nat)
    requires passes >= 1 && StrFits(key) && After(prior, key) && (hasId ==> Reached(prior, KEY_ID))
    requires if key == KEY_ID then IsText(value, 20) else Fits(value, 1)
    ensures hasId || key == KEY_ID ==> Reached(Some(key), KEY_ID)
    ensures ResponseEntries(PrintStr(key) + Print(value) + next, prior, hasId, passes)
            == match ResponseEntries(next, Some(key), hasId || key == KEY_ID, passes - 1)
               case Err(e) => Err(e)
               case Ok(a) => Ok(Answered(a.hasId, |PrintStr(key)| + |Print(value)| + a.length))
  {
    hide ReadStr, Skip, Less, PrintStr, Print, Fits, StrFits, Reached, After, ResponseEntries;
    var left := PrintStr(key) + Print(value) + next;
    Pieces(PrintStr(key), Print(value), next);
    StrRead(key, Print(value) + next);
    if hasId { ReachedStays(prior, key, KEY_ID); }
    if key == KEY_ID {
      ReachedHere(key);
      TextRead(value, 20, next);
    } else {
      ValueRead(value, 1, next);
    }
    ResponseOnce(left, prior, hasId, passes, Text(key, |PrintStr(key)|), |Print(value)|);
  }

  lemma ResponseOnce(left: Bytes, prior: Option<Bytes>, hasId: bool, passes: nat, key: Text, n: nat)
    requires passes >= 1 && left != [] && IsDigit(left[0]) && ReadStr(left) == Some(key) && After(prior, key.bytes)
    requires Some(n) == if key.bytes == KEY_ID then TextLength(ReadStr(left[key.length..]), 20)
        else Skip(left[key.length..], 1)
    requires key.bytes == KEY_ID ==> !hasId
    ensures ResponseEntries(left, prior, hasId, passes)
            == match ResponseEntries(left[key.length + n..], Some(key.bytes), hasId || key.bytes == KEY_ID, passes - 1)
               case Err(e) => Err(e)
               case Ok(a) => Ok(Answered(a.hasId, key.length + n + a.length))
  {
    hide ReadStr, Skip, After;
  }

  lemma ReachedHere(key: Bytes)
    ensures Reached(Some(key), key)
  {
    LessIrreflexive(key);
  }

  lemma TextRead(v: Value, length: nat, rest: Bytes)
    requires IsText(v, length) && length <= 20
    ensures ReadStr(Print(v) + rest) == Some(Text(v.bytes, |Print(v)|))
  {
    hide ReadStr, PrintStr;
    ShortFits(v.bytes);
    StrRead(v.bytes, rest);
  }

  lemma ShortFits(s: Bytes)
    requires |s| <= 20
    ensures StrFits(s)
  {
    assert Ceiling(2) == 100;
    CeilingSteps(2, MAX_LENGTH_DIGITS);
  }

  lemma {:induction false} CeilingSteps(m: nat, n: nat)
    requires m <= n
    ensures Ceiling(m) <= Ceiling(n)
    decreases n - m
  {
    if m < n { CeilingSteps(m + 1, n); }
  }

  lemma {:induction false} ResponseSound(left: Bytes, prior: Option<Bytes>, hasId: bool, passes: nat)
    returns (es: Entries)
    requires ResponseEntries(left, prior, hasId, passes).Ok?
    ensures var a := ResponseEntries(left, prior, hasId, passes).value;
            && passes >= 1 && ResponseFits(es, passes - 1, prior)
            && PrintEntries(es) == left[..a.length] && a.hasId == (hasId || Get(es, KEY_ID).Some?)
    decreases passes
  {
    hide ReadStr, Skip, After, PrintStr, Print, Fits, StrFits, ResponseEntries;
    ResponseGoesOn(left, prior, hasId, passes);
    if left[0] == LETTER_E { return NoEntries; }
    StrReadSound(left);
    var key := ReadStr(left).value;
    var k, left1, isId := key.length, left[key.length..], key.bytes == KEY_ID;
    var value;
    if isId { value := TextSound(left1); } else { value := ValueSound(left1, 1); }
    var n := if isId then ReadStr(left1).value.length else Skip(left1, 1).value;
    var left2 := left[k + n..];
    ResponseOnce(left, prior, hasId, passes, key, n);
    var more := ResponseSound(left2, Some(key.bytes), hasId || isId, passes - 1);
    es := Entry(key.bytes, value, more);
    ThreePieces(left, k, n, ResponseEntries(left2, Some(key.bytes), hasId || isId, passes - 1).value.length);
  }

  /** What an accepted response looks like at its head. */
  lemma ResponseGoesOn(left: Bytes, prior: Option<Bytes>, hasId: bool, passes: nat)
    requires ResponseEntries(left, prior, hasId, passes).Ok?
    ensures passes >= 1 && left != []
    ensures left[0] == LETTER_E ==> ResponseEntries(left, prior, hasId, passes) == Ok(Answered(hasId, 1))
    ensures left[0] != LETTER_E ==> ReadStr(left).Some? && After(prior, ReadStr(left).value.bytes)
    ensures left[0] != LETTER_E ==>
              var key := ReadStr(left).value;
              var rest := left[key.length..];
              if key.bytes == KEY_ID then !hasId && ReadStr(rest).Some? && |ReadStr(rest).value.bytes| == 20
              else Skip(rest, 1).Some?
  {
    hide ReadStr, Skip, After;
  }

  lemma TextSound(left: Bytes) returns (v: Value)
    requires ReadStr(left).Some?
    ensures v == Str(ReadStr(left).value.bytes) && Print(v) == left[..ReadStr(left).value.length]
  {
    hide ReadStr, PrintStr;
    StrReadSound(left);
    v := Str(ReadStr(left).value.bytes);
  }

  // Entries.

  /** What one entry adds to what was found. */
  function Gathered(key: Bytes, v: Value, f: Found, require: bool): Found {
    if key == KEY_T && v.Str? then f.(transaction := Some(v.bytes))
    else if key == KEY_Y && v.Str? then f.(kind := Some(v.bytes))
    else if key == KEY_R && require then f.(responseId := HasId(v))
    else f
  }

  function GatherAll(es: Entries, f: Found, require: bool): Found {
    match es
    case NoEntries => f
    case Entry(key, value, more) => GatherAll(more, Gathered(key, value, f, require), require)
  }

  lemma EntryRead(prior: Option<Bytes>, key: Bytes, v: Value, rest: Bytes, f: Found, require: bool)
    requires ValueFits(key, v, require) && Ordered(prior, f, require) && After(prior, key)
    ensures EntryValue(key, Print(v) + rest, f, require) == Ok(Progress(Gathered(key, v, f, require), |Print(v)|))
  {
    hide ReadStr, Skip, Less, ResponseEntries, PrintStr, Fits, PrintEntries, ResponseFits;
    EntryNeverRepeats(prior, key, Print(v) + rest, f, require);
    if key == KEY_T {
      TextRead(v, 2, rest);
    } else if key == KEY_Y {
      TextRead(v, 1, rest);
    } else if key == KEY_R && require {
      assert (Print(v) + rest)[1..] == PrintEntries(v.entries) + rest;
      ResponseRead(v.entries, None, false, MESSAGE_PASSES - 1, rest);
    } else {
      ValueRead(v, 0, rest);
    }
  }

  lemma EntrySound(key: Bytes, left: Bytes, f: Found, require: bool) returns (v: Value)
    requires EntryValue(key, left, f, require).Ok?
    ensures var p := EntryValue(key, left, f, require).value;
            && ValueFits(key, v, require) && Print(v) == left[..p.length] && p.found == Gathered(key, v, f, require)
  {
    hide ReadStr, Skip, ResponseEntries, PrintStr, Fits, PrintEntries, ResponseFits;
    if key == KEY_T || key == KEY_Y {
      v := TextSound(left);
    } else if key == KEY_R && require {
      var es := ResponseSound(left[1..], None, false, MESSAGE_PASSES);
      v := Dict(es);
      var n := ResponseEntries(left[1..], None, false, MESSAGE_PASSES).value.length;
      assert left[..1 + n] == [left[0]] + left[1..][..n];
    } else {
      v := ValueSound(left, 0);
    }
  }

  // Messages.

  /** A printed message parses to its transaction, or is refused for what it lacks. */
  lemma {:induction false} MessageRead(es: Entries, prior: Option<Bytes>, f: Found, room: nat, kind: Bytes,
      require: bool)
    requires MessageFits(es, room, prior, require) && Ordered(prior, f, require)
    ensures MessageEntries(PrintEntries(es), prior, f, room + 1, kind, require)
            == (var g := GatherAll(es, f, require);
                if g.transaction.Some? && g.kind == Some(kind) && g.responseId then Ok(g.transaction.value)
                    else Err(Malformed))
    decreases es
  {
    hide ReadStr, Less, EntryValue, PrintStr, Print, ValueFits, Ordered, StrFits, Gathered;
    match es
    case NoEntries =>
    case Entry(key, value, more) =>
      var next, left := PrintEntries(more), PrintEntries(es);
      assert left == PrintStr(key) + (Print(value) + next);
      StrRead(key, Print(value) + next);
      EntryRead(prior, key, value, next, f, require);
      EntryNeverRepeats(prior, key, Print(value) + next, f, require);
      assert left[|PrintStr(key)|..] == Print(value) + next;
      assert left[|PrintStr(key)| + |Print(value)|..] == next;
      MessageRead(more, Some(key), Gathered(key, value, f, require), room - 1, kind, require);
  }

  lemma {:induction false} MessageSound(left: Bytes, prior: Option<Bytes>, f: Found, passes: nat, kind: Bytes,
      require: bool)
    returns (es: Entries)
    requires MessageEntries(left, prior, f, passes, kind, require).Ok?
    ensures passes >= 1 && MessageFits(es, passes - 1, prior, require) && PrintEntries(es) == left
    ensures var g := GatherAll(es, f, require);
            && g.transaction == Some(MessageEntries(left, prior, f, passes, kind, require).value)
            && g.kind == Some(kind) && g.responseId
    decreases passes
  {
    hide ReadStr, Less, EntryValue, PrintStr, Print, ValueFits, StrFits, Gathered;
    if left[0] == LETTER_E { return NoEntries; }
    StrReadSound(left);
    var key := ReadStr(left).value;
    var k, left1 := key.length, left[key.length..];
    var value := EntrySound(key.bytes, left1, f, require);
    var p := EntryValue(key.bytes, left1, f, require).value;
    var left2 := left[k + p.length..];
    var more := MessageSound(left2, Some(key.bytes), p.found, passes - 1, kind, require);
    es := Entry(key.bytes, value, more);
    assert left == left[..k] + left1[..p.length] + left2;
  }

  /** A key that was reached does not come again. */
  lemma {:induction false} ReachedAbsent(es: Entries, room: nat, prior: Option<Bytes>, key: Bytes, require: bool)
    requires MessageFits(es, room, prior, require) && Reached(prior, key)
    ensures Get(es, key).None?
    decreases es
  {
    hide Less, ValueFits, StrFits;
    match es
    case NoEntries =>
    case Entry(next, _, more) =>
      ReachedStays(prior, next, key);
      ReachedAbsent(more, room - 1, Some(next), key, require);
  }

  /** What the loop gathers is what the dictionary holds. */
  lemma {:induction false} GatherExact(es: Entries, room: nat, prior: Option<Bytes>, f: Found, require: bool)
    requires MessageFits(es, room, prior, require)
    ensures var g := GatherAll(es, f, require);
            && (Get(es, KEY_T).Some? ==> IsText(Get(es, KEY_T).value, 2))
            && (Get(es, KEY_Y).Some? ==> IsText(Get(es, KEY_Y).value, 1))
            && g.transaction == (match Get(es, KEY_T) case Some(v) => Some(v.bytes) case None => f.transaction)
            && g.kind == (match Get(es, KEY_Y) case Some(v) => Some(v.bytes) case None => f.kind)
            && g.responseId == (if require && Get(es, KEY_R).Some? then HasId(Get(es, KEY_R).value) else f.responseId)
    decreases es
  {
    hide Less, StrFits, HasId, Fits, ResponseFits;
    match es
    case NoEntries =>
    case Entry(key, value, more) =>
      GatherExact(more, room - 1, Some(key), Gathered(key, value, f, require), require);
      LessIrreflexive(key);
      ReachedAbsent(more, room - 1, Some(key), key, require);
  }

  lemma MessageAccepted(es: Entries, kind: Bytes, require: bool, transaction: Bytes)
    requires IsMessage(es, kind, require, transaction) && |Print(Dict(es))| <= MAX_MESSAGE_BYTES
    ensures ParseMessage(Print(Dict(es)), kind, require) == Ok(transaction)
  {
    hide MessageEntries, PrintEntries, MessageFits, GatherAll, HasId;
    var f := Found(None, None, !require);
    assert Print(Dict(es))[1..] == PrintEntries(es);
    MessageRead(es, None, f, MESSAGE_PASSES - 1, kind, require);
    GatherExact(es, MESSAGE_PASSES - 1, None, f, require);
  }

  /** The parser accepts exactly the messages: a value is parsed to a transaction if and only if it has at most
      512 bytes and is the print of a dictionary with at most 31 increasing keys, each value fit for its key, that
      names this transaction and this kind and, where required, a response with a twenty-byte id. */
  lemma ParseExact(value: Bytes, kind: Bytes, require: bool, transaction: Bytes)
    ensures ParseMessage(value, kind, require) == Ok(transaction) <==>
            && |value| <= MAX_MESSAGE_BYTES
            && exists es :: value == Print(Dict(es)) && IsMessage(es, kind, require, transaction)
  {
    hide MessageEntries, PrintEntries, MessageFits, GatherAll, HasId;
    if ParseMessage(value, kind, require) == Ok(transaction) {
      var f := Found(None, None, !require);
      var es := MessageSound(value[1..], None, f, MESSAGE_PASSES, kind, require);
      GatherExact(es, MESSAGE_PASSES - 1, None, f, require);
      assert value == [value[0]] + value[1..];
      assert value == Print(Dict(es)) && IsMessage(es, kind, require, transaction);
    }
    if |value| <= MAX_MESSAGE_BYTES {
      forall es | value == Print(Dict(es)) && IsMessage(es, kind, require, transaction)
        ensures ParseMessage(value, kind, require) == Ok(transaction)
      {
        MessageAccepted(es, kind, require, transaction);
      }
    }
  }

  // ---------------------------------------------------------------------------------------
  // The ping.

  const PING_HEAD: Bytes := [100, 49, 58, 97, 100, 50, 58, 105, 100, 50, 48, 58]
  const PING_QUERY: Bytes := [101, 49, 58, 113, 52, 58, 112, 105, 110, 103, 49, 58, 116, 50, 58]
  const PING_KIND: Bytes := [49, 58, 121, 49, 58, 113, 101]

  /** `build_dht_ping`. */
  function BuildPing(token: Bytes): Bytes
    requires |token| == 16
  {
    PING_HEAD + token + token[..4] + PING_QUERY + token[..2] + PING_KIND
  }

  /** The ping as a value: its id, the query name, the transaction and the kind. */
  function PingEntries(token: Bytes): Entries
    requires |token| == 16
  {
    Entry([97], Dict(Entry(KEY_ID, Str(token + token[..4]), NoEntries)),
    Entry([113], Str([112, 105, 110, 103]),
    Entry(KEY_T, Str(token[..2]),
    Entry(KEY_Y, Str([113]), NoEntries))))
  }

  lemma ShortStr(s: Bytes)
    requires |s| < 10
    ensures PrintStr(s) == [48 + |s|, COLON] + s && StrFits(s)
  {
    CeilingGrows(MAX_LENGTH_DIGITS);
  }

  lemma LongStr(s: Bytes)
    requires |s| == 20
    ensures PrintStr(s) == [50, 48, COLON] + s && StrFits(s)
  {
    assert Decimal(2) == [50] && Decimal(20) == [50] + [48];
    DecimalLength(20, 2);
    DecimalLength(20, MAX_LENGTH_DIGITS);
  }

  lemma StrEntry(key: Bytes, s: Bytes, more: Entries)
    ensures PrintEntries(Entry(key, Str(s), more)) == PrintStr(key) + PrintStr(s) + PrintEntries(more)
  {
  }

  /** From the query name on. */
  lemma PingTail(transaction: Bytes)
    requires |transaction| == 2
    ensures PrintEntries(Entry([113], Str([112, 105, 110, 103]),
        Entry(KEY_T, Str(transaction), Entry(KEY_Y, Str([113]), NoEntries))))
            == [49, 58, 113, 52, 58, 112, 105, 110, 103, 49, 58, 116, 50, 58] + transaction
                + [49, 58, 121, 49, 58, 113, 101]
  {
    hide PrintStr, StrFits;
    ShortStr([113]);
    ShortStr([112, 105, 110, 103]);
    ShortStr(KEY_T);
    ShortStr(transaction);
    ShortStr(KEY_Y);
    var y := Entry(KEY_Y, Str([113]), NoEntries);
    StrEntry(KEY_Y, [113], NoEntries);
    assert PrintEntries(y) == [49, 58, 121, 49, 58, 113, 101];
    StrEntry(KEY_T, transaction, y);
    hide PrintEntries;
    StrEntry([113], [112, 105, 110, 103], Entry(KEY_T, Str(transaction), y));
    var end := PrintEntries(y);
    assert [49, COLON] + [113] + ([52, COLON] + [112, 105, 110, 103])
        + ([49, COLON] + KEY_T + ([50, COLON] + transaction) + end)
      == [49, 58, 113, 52, 58, 112, 105, 110, 103, 49, 58, 116, 50, 58] + transaction + end;
  }

  /** The arguments: one id of twenty bytes. */
  lemma PingArguments(id: Bytes)
    requires |id| == 20
    ensures PrintEntries(Entry(KEY_ID, Str(id), NoEntries)) == [50, 58, 105, 100, 50, 48, 58] + id + [101]
  {
    hide PrintStr, StrFits;
    ShortStr(KEY_ID);
    LongStr(id);
    StrEntry(KEY_ID, id, NoEntries);
  }

  lemma Nested(key: Bytes, arguments: Entries, more: Entries)
    ensures Print(Dict(Entry(key, Dict(arguments), more)))
            == [100] + (PrintStr(key) + ([100] + PrintEntries(arguments)) + PrintEntries(more))
  {
    hide PrintStr;
    assert Print(Dict(arguments)) == [100] + PrintEntries(arguments);
    assert PrintEntries(Entry(key, Dict(arguments), more))
        == PrintStr(key) + Print(Dict(arguments)) + PrintEntries(more);
  }

  lemma Regroup(a: Bytes, b: Bytes, d: Bytes, x: Bytes, y: Bytes, e: Bytes, q: Bytes, t: Bytes, k: Bytes)
    ensures a + (b + (a + (d + (x + y) + e)) + (q + t + k)) == (a + b + a + d) + x + y + (e + q) + t + k
  {
  }

  lemma PingPrinted(token: Bytes)
    requires |token| == 16
    ensures BuildPing(token) == Print(Dict(PingEntries(token)))
  {
    hide PrintStr, StrFits, Print, PrintEntries;
    var id := token + token[..4];
    ShortStr([97]);
    PingTail(token[..2]);
    PingArguments(id);
    Nested([97], Entry(KEY_ID, Str(id), NoEntries), PingEntries(token).more);
    var query: Bytes := [49, 58, 113, 52, 58, 112, 105, 110, 103, 49, 58, 116, 50, 58];
    Regroup([100], [49, 58, 97], [50, 58, 105, 100, 50, 48, 58], token, token[..4], [101], query, token[..2],
        PING_KIND);
    PingConstants();
  }

  lemma PingConstants()
    ensures [100] + [49, 58, 97] + [100] + [50, 58, 105, 100, 50, 48, 58] == PING_HEAD
    ensures [101] + [49, 58, 113, 52, 58, 112, 105, 110, 103, 49, 58, 116, 50, 58] == PING_QUERY
    ensures [49, COLON] + [97] == [49, 58, 97]
  {
  }

  /** Every ping that is sent parses to its own two-byte transaction. */
  lemma PingParses(token: Bytes)
    requires |token| == 16
    ensures ParseMessage(BuildPing(token), [113], false) == Ok(token[..2])
  {
    hide PrintStr, StrFits, ParseMessage, IsMessage;
    PingPrinted(token);
    PingFits(token);
    MessageAccepted(PingEntries(token), [113], false, token[..2]);
  }

  lemma PingOrder()
    ensures Less([97], [113]) && Less([113], KEY_T) && Less(KEY_T, KEY_Y)
  {
  }

  lemma PingArgumentsFit(id: Bytes)
    requires |id| == 20
    ensures Fits(Dict(Entry(KEY_ID, Str(id), NoEntries)), 0)
  {
    hide StrFits;
    ShortFits(id);
    ShortFits(KEY_ID);
    assert EntriesFit(Entry(KEY_ID, Str(id), NoEntries), 1, MAX_ENTRIES, None);
  }

  lemma OneMore(key: Bytes, v: Value, more: Entries, room: nat, prior: Option<Bytes>, require: bool)
    requires |key| <= 20 && After(prior, key) && ValueFits(key, v, require)
        && MessageFits(more, room, Some(key), require)
    ensures MessageFits(Entry(key, v, more), room + 1, prior, require)
  {
    hide ValueFits, After, StrFits;
    ShortFits(key);
  }

  lemma PingFits(token: Bytes)
    requires |token| == 16
    ensures IsMessage(PingEntries(token), [113], false, token[..2])
  {
    hide StrFits, Less, EntriesFit, MessageFits;
    PingOrder();
    PingArgumentsFit(token + token[..4]);
    ShortFits([112, 105, 110, 103]);
    NoneFit(27, Some(KEY_Y));
    var y := Entry(KEY_Y, Str([113]), NoEntries);
    OneMore(KEY_Y, Str([113]), NoEntries, 27, Some(KEY_T), false);
    var t := Entry(KEY_T, Str(token[..2]), y);
    OneMore(KEY_T, Str(token[..2]), y, 28, Some([113]), false);
    var q := Entry([113], Str([112, 105, 110, 103]), t);
    OneMore([113], Str([112, 105, 110, 103]), t, 29, Some([97]), false);
    OneMore([97], PingEntries(token).value, q, 30, None, false);
    assert Get(y, KEY_Y) == Some(Str([113])) && Get(t, KEY_Y) == Get(y, KEY_Y) && Get(q, KEY_Y) == Get(t, KEY_Y);
    assert Get(q, KEY_T) == Get(t, KEY_T);
  }

  lemma NoneFit(room: nat, prior: Option<Bytes>)
    ensures MessageFits(NoEntries, room, prior, false)
  {
  }
}

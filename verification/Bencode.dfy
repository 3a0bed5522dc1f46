/** The bencode reader of the distributed hash table probe
    (crates/nodenet-protocols/src/udp_extended.rs; BEP 3, BEP 5). */
module Bencode {
  import opened Wire

  const COLON: Byte := 58
  const MINUS: Byte := 45
  const ZERO: Byte := 48
  const LETTER_D: Byte := 100
  const LETTER_E: Byte := 101
  const LETTER_I: Byte := 105
  const LETTER_L: Byte := 108
  const MAX_DEPTH: nat := 4
  const MAX_ENTRIES: nat := 63
  const MAX_LENGTH_DIGITS: nat := 9

  // ---------------------------------------------------------------------------------------
  // Decimal numbers.

  predicate IsDigit(b: Byte) { 48 <= b <= 57 }

  predicate AllDigits(s: Bytes) { forall i :: 0 <= i < |s| ==> IsDigit(s[i]) }

  function LeadingDigits(s: Bytes): (n: nat)
    ensures n <= |s| && AllDigits(s[..n]) && (n < |s| ==> !IsDigit(s[n]))
  {
    if s == [] || !IsDigit(s[0]) then 0
    else
      var n := 1 + LeadingDigits(s[1..]);
      assert s[1..][..n - 1] == s[1..n];
      n
  }

  function Number(digits: Bytes): nat
    requires AllDigits(digits)
  {
    if digits == [] then 0 else Number(digits[..|digits| - 1]) * 10 + (digits[|digits| - 1] - 48)
  }

  function Decimal(n: nat): (s: Bytes)
    ensures s != [] && AllDigits(s)
  {
    if n < 10 then [48 + n] else Decimal(n / 10) + [48 + n % 10]
  }

  /** Ten to the number of digits. */
  function Ceiling(digits: nat): nat { if digits == 0 then 1 else 10 * Ceiling(digits - 1) }

  lemma {:induction false} DecimalExact(n: nat)
    ensures Number(Decimal(n)) == n && (Decimal(n)[0] == ZERO ==> Decimal(n) == [ZERO])
    decreases n
  {
    var s := Decimal(n);
    if n >= 10 {
      DecimalExact(n / 10);
      assert s[..|s| - 1] == Decimal(n / 10);
    } else {
      assert s[..0] == [];
    }
  }

  lemma {:induction false} DecimalLength(n: nat, digits: nat)
    requires digits >= 1
    ensures |Decimal(n)| <= digits <==> n < Ceiling(digits)
    decreases digits
  {
    if digits == 1 {
      assert Ceiling(1) == 10;
    } else if n >= 10 {
      DecimalLength(n / 10, digits - 1);
    } else {
      CeilingGrows(digits);
    }
  }

  lemma {:induction false} CeilingGrows(digits: nat)
    requires digits >= 1
    ensures Ceiling(digits) >= 10
  {
    if digits > 1 { CeilingGrows(digits - 1); }
  }

  lemma {:induction false} NumberExact(digits: Bytes)
    requires digits != [] && AllDigits(digits) && (digits[0] == ZERO ==> |digits| == 1)
    ensures Decimal(Number(digits)) == digits
    ensures digits[0] != ZERO ==> Number(digits) >= 1
    decreases |digits|
  {
    var init, last := digits[..|digits| - 1], digits[|digits| - 1];
    if |digits| == 1 {
      assert init == [];
    } else {
      NumberExact(init);
      assert Number(digits) / 10 == Number(init) && Number(digits) % 10 == last - 48;
      assert digits == init + [last];
    }
  }

  lemma {:induction false} LeadingExact(digits: Bytes, rest: Bytes)
    requires AllDigits(digits) && rest != [] && !IsDigit(rest[0])
    ensures LeadingDigits(digits + rest) == |digits|
    decreases |digits|
  {
    if digits == [] {
      assert digits + rest == rest;
    } else {
      LeadingExact(digits[1..], rest);
      assert (digits + rest)[1..] == digits[1..] + rest;
    }
  }

  // ---------------------------------------------------------------------------------------
  // Values.

  datatype Value =
    | Str(bytes: Bytes)
    | Num(negative: bool, digits: Bytes)
    | List(items: Items)
    | Dict(entries: Entries)

  datatype Items = NoItems | Item(value: Value, more: Items)

  datatype Entries = NoEntries | Entry(key: Bytes, value: Value, more: Entries)

  function PrintStr(s: Bytes): Bytes { Decimal(|s|) + [COLON] + s }

  function Print(v: Value): (s: Bytes)
    ensures s != []
  {
    match v
    case Str(bytes) => PrintStr(bytes)
    case Num(negative, digits) => [LETTER_I] + (if negative then [MINUS] else []) + digits + [LETTER_E]
    case List(items) => [LETTER_L] + PrintItems(items)
    case Dict(entries) => [LETTER_D] + PrintEntries(entries)
  }

  /** The items and the closing letter. */
  function PrintItems(items: Items): (s: Bytes)
    ensures s != []
  {
    match items
    case NoItems => [LETTER_E]
    case Item(value, more) => Print(value) + PrintItems(more)
  }

  function PrintEntries(entries: Entries): (s: Bytes)
    ensures s != []
  {
    match entries
    case NoEntries => [LETTER_E]
    case Entry(key, value, more) => PrintStr(key) + Print(value) + PrintEntries(more)
  }

  /** Byte strings in dictionary order. */
  predicate Less(a: Bytes, b: Bytes) {
    b != [] && (a == [] || a[0] < b[0] || (a[0] == b[0] && Less(a[1..], b[1..])))
  }

  predicate After(prior: Option<Bytes>, key: Bytes) { prior.None? || Less(prior.value, key) }

  predicate StrFits(s: Bytes) { |s| < Ceiling(MAX_LENGTH_DIGITS) }

  /** Values the reader accepts at a depth. */
  predicate Fits(v: Value, depth: nat)
    decreases v
  {
    depth <= MAX_DEPTH &&
    match v
    case Str(bytes) => StrFits(bytes)
    case Num(negative, digits) =>
      digits != [] && AllDigits(digits) && (digits[0] == ZERO ==> |digits| == 1 && !negative)
    case List(items) => ItemsFit(items, depth + 1, MAX_ENTRIES)
    case Dict(entries) => EntriesFit(entries, depth + 1, MAX_ENTRIES, None)
  }

  predicate ItemsFit(items: Items, depth: nat, room: nat)
    decreases items
  {
    match items
    case NoItems => true
    case Item(value, more) => room > 0 && Fits(value, depth) && ItemsFit(more, depth, room - 1)
  }

  /** Strictly increasing keys. */
  predicate EntriesFit(entries: Entries, depth: nat, room: nat, prior: Option<Bytes>)
    decreases entries
  {
    match entries
    case NoEntries => true
    case Entry(key, value, more) =>
      room > 0 && StrFits(key) && After(prior, key) && Fits(value, depth)
          && EntriesFit(more, depth, room - 1, Some(key))
  }

  // ---------------------------------------------------------------------------------------
  // The reader.

  datatype Text = Text(bytes: Bytes, length: nat)

  /** A length-prefixed string at the front, and the bytes it takes. */
  function ReadStr(left: Bytes): (r: Option<Text>)
    ensures r.Some? ==> 0 < r.value.length <= |left|
  {
    var n := LeadingDigits(left);
    if n == 0 || n > MAX_LENGTH_DIGITS || (left[0] == ZERO && n > 1) || n >= |left| || left[n] != COLON then None
    else
      var end := n + 1 + Number(left[..n]);
      if end > |left| then None else Some(Text(left[n + 1..end], end))
  }

  function ReadNum(left: Bytes): (r: Option<nat>)
    requires left != []
    ensures r.Some? ==> 0 < r.value <= |left|
  {
    var sign := if |left| > 1 && left[1] == MINUS then 1 else 0;
    var n := LeadingDigits(left[1 + sign..]);
    var end := 1 + sign + n;
    if n == 0 || end >= |left| || left[end] != LETTER_E || (left[1 + sign] == ZERO && (n > 1 || sign == 1)) then None
    else Some(end + 1)
  }

  /** `skip_bencode_value` at the front of `left`: the bytes it takes. */
  function Skip(left: Bytes, depth: nat): (r: Option<nat>)
    ensures r.Some? ==> 0 < r.value <= |left|
    decreases |left|, 0, 0
  {
    if depth > MAX_DEPTH || left == [] then None
    else if IsDigit(left[0]) then (var t := ReadStr(left); if t.None? then None else Some(t.value.length))
    else if left[0] == LETTER_I then ReadNum(left)
    else if left[0] == LETTER_L || left[0] == LETTER_D then
      var r := SkipEntries(left[1..], left[0] == LETTER_D, None, MAX_ENTRIES + 1, depth + 1);
      if r.None? then None else Some(1 + r.value)
    else None
  }

  /** The rest of a container, with the passes the loop has left. */
  function SkipEntries(left: Bytes, keyed: bool, prior: Option<Bytes>, passes: nat, depth: nat): (r: Option<nat>)
    ensures r.Some? ==> 0 < r.value <= |left|
    decreases |left|, 1, passes
  {
    if passes == 0 || left == [] then None
    else if left[0] == LETTER_E then Some(1)
    else
      var key := if keyed then ReadStr(left) else Some(Text([], 0));
      if key.None? || (keyed && !After(prior, key.value.bytes)) then None
      else
        var from := key.value.length;
        var value := Skip(left[from..], depth);
        if value.None? then None
        else
          var next := if keyed then Some(key.value.bytes) else prior;
          var rest := SkipEntries(left[from + value.value..], keyed, next, passes - 1, depth);
          if rest.None? then None else Some(from + value.value + rest.value)
  }

  // ---------------------------------------------------------------------------------------
  // Printed values are read exactly.

  lemma StrRead(s: Bytes, rest: Bytes)
    requires StrFits(s)
    ensures ReadStr(PrintStr(s) + rest) == Some(Text(s, |PrintStr(s)|))
    ensures IsDigit((PrintStr(s) + rest)[0])
  {
    hide Decimal, Number, LeadingDigits, Ceiling;
    var d, left := Decimal(|s|), PrintStr(s) + rest;
    DecimalExact(|s|);
    DecimalLength(|s|, MAX_LENGTH_DIGITS);
    assert left == d + ([COLON] + s + rest);
    LeadingExact(d, [COLON] + s + rest);
    assert left[..|d|] == d && left[0] == d[0] && left[|d|] == COLON;
    assert left[|d| + 1..|d| + 1 + |s|] == s;
  }

  lemma StrReadSound(left: Bytes)
    requires ReadStr(left).Some?
    ensures var t := ReadStr(left).value;
            StrFits(t.bytes) && PrintStr(t.bytes) == left[..t.length] && IsDigit(left[0])
  {
    hide Decimal, Number, Ceiling;
    var t, n := ReadStr(left).value, LeadingDigits(left);
    var d := left[..n];
    assert d[0] == left[0];
    NumberExact(d);
    DecimalLength(|t.bytes|, MAX_LENGTH_DIGITS);
    assert left[..t.length] == d + [left[n]] + left[n + 1..t.length];
  }

  lemma NumRead(v: Value, rest: Bytes)
    requires v.Num? && Fits(v, 0)
    ensures ReadNum(Print(v) + rest) == Some(|Print(v)|)
  {
    hide LeadingDigits;
    var left := Print(v) + rest;
    var sign: nat := if v.negative then 1 else 0;
    var tail := [LETTER_E] + rest;
    assert left[1 + sign..] == v.digits + tail;
    LeadingExact(v.digits, tail);
    assert left[1 + sign] == v.digits[0] && left[1 + sign + |v.digits|] == LETTER_E;
    if v.negative { assert left[1] == MINUS; } else { assert left[1] == v.digits[0]; }
  }

  lemma NumReadSound(left: Bytes) returns (v: Value)
    requires left != [] && left[0] == LETTER_I && ReadNum(left).Some?
    ensures v.Num? && (forall depth: nat :: depth <= MAX_DEPTH ==> Fits(v, depth))
        && Print(v) == left[..ReadNum(left).value]
  {
    var sign: nat := if |left| > 1 && left[1] == MINUS then 1 else 0;
    var n := LeadingDigits(left[1 + sign..]);
    var digits := left[1 + sign..1 + sign + n];
    assert digits == left[1 + sign..][..n];
    v := Num(sign == 1, digits);
    assert digits[0] == left[1 + sign];
    assert left[..ReadNum(left).value] == [left[0]] + left[1..1 + sign] + digits + [left[1 + sign + n]];
  }

  /** The reader by the first byte. */
  lemma SkipCases(left: Bytes, depth: nat)
    requires left != [] && depth <= MAX_DEPTH
    ensures IsDigit(left[0]) ==>
        Skip(left, depth)
        == (if ReadStr(left).None? then None else Some(ReadStr(left).value.length))
    ensures left[0] == LETTER_I ==> Skip(left, depth) == ReadNum(left)
    ensures left[0] == LETTER_L || left[0] == LETTER_D ==>
              var r := SkipEntries(left[1..], left[0] == LETTER_D, None, MAX_ENTRIES + 1, depth + 1);
              Skip(left, depth) == if r.None? then None else Some(1 + r.value)
  {
    hide ReadStr, ReadNum, SkipEntries;
  }

  lemma {:induction false} ValueRead(v: Value, depth: nat, rest: Bytes)
    requires Fits(v, depth)
    ensures Skip(Print(v) + rest, depth) == Some(|Print(v)|)
    decreases v
  {
    hide ReadStr, ReadNum, PrintStr, Skip, SkipEntries, ItemsFit, EntriesFit, PrintItems, PrintEntries, StrFits;
    var left := Print(v) + rest;
    SkipCases(left, depth);
    match v
    case Str(bytes) => StrRead(bytes, rest);
    case Num(_, _) => NumRead(v, rest);
    case List(items) =>
      assert left[1..] == PrintItems(items) + rest;
      ItemsRead(items, depth + 1, MAX_ENTRIES, rest);
    case Dict(entries) =>
      assert left[1..] == PrintEntries(entries) + rest;
      EntriesRead(entries, depth + 1, MAX_ENTRIES, None, rest);
  }

  lemma FirstByte(v: Value, depth: nat, rest: Bytes)
    requires Fits(v, depth)
    ensures (Print(v) + rest)[0] != LETTER_E
  {
    hide Decimal, Ceiling;
    if v.Str? { assert IsDigit(Decimal(|v.bytes|)[0]); }
  }

  lemma {:induction false} ItemsRead(items: Items, depth: nat, room: nat, rest: Bytes)
    requires ItemsFit(items, depth, room)
    ensures SkipEntries(PrintItems(items) + rest, false, None, room + 1, depth) == Some(|PrintItems(items)|)
    decreases items
  {
    hide Skip, Print, Fits;
    match items
    case NoItems =>
    case Item(value, more) =>
      var next := PrintItems(more) + rest;
      var left := PrintItems(items) + rest;
      assert left == Print(value) + next;
      FirstByte(value, depth, next);
      ValueRead(value, depth, next);
      ItemsRead(more, depth, room - 1, rest);
      assert left[0..] == left && left[0 + |Print(value)|..] == next;
  }

  lemma {:induction false} EntriesRead(entries: Entries, depth: nat, room: nat, prior: Option<Bytes>, rest: Bytes)
    requires EntriesFit(entries, depth, room, prior)
    ensures SkipEntries(PrintEntries(entries) + rest, true, prior, room + 1, depth) == Some(|PrintEntries(entries)|)
    decreases entries
  {
    hide Skip, Print, Fits, ReadStr, PrintStr, After, SkipEntries, StrFits;
    match entries
    case NoEntries => EntriesEnd(rest, prior, room + 1, depth);
    case Entry(key, value, more) =>
      var next := PrintEntries(more) + rest;
      var left := PrintEntries(entries) + rest;
      assert left == PrintStr(key) + Print(value) + next;
      Pieces(PrintStr(key), Print(value), next);
      StrRead(key, Print(value) + next);
      ValueRead(value, depth, next);
      EntriesRead(more, depth, room - 1, Some(key), rest);
      EntriesOnce(left, prior, room + 1, depth, Text(key, |PrintStr(key)|), |Print(value)|);
  }

  lemma EntriesEnd(rest: Bytes, prior: Option<Bytes>, passes: nat, depth: nat)
    requires passes >= 1
    ensures SkipEntries([LETTER_E] + rest, true, prior, passes, depth) == Some(1)
  {
  }

  lemma EntriesOnce(left: Bytes, prior: Option<Bytes>, passes: nat, depth: nat, key: Text, n: nat)
    requires passes >= 1 && left != [] && IsDigit(left[0]) && ReadStr(left) == Some(key) && After(prior, key.bytes)
    requires Skip(left[key.length..], depth) == Some(n)
    ensures SkipEntries(left, true, prior, passes, depth)
            == match SkipEntries(left[key.length + n..], true, Some(key.bytes), passes - 1, depth)
               case None => None
               case Some(m) => Some(key.length + n + m)
  {
    hide Skip, ReadStr, After;
  }

  lemma Pieces(a: Bytes, b: Bytes, c: Bytes)
    ensures a + b + c == a + (b + c) && (a + b + c)[|a|..] == b + c && (a + b + c)[|a| + |b|..] == c
  {
  }

  // ---------------------------------------------------------------------------------------
  // What is read is a printed value.

  lemma {:induction false} ValueSound(left: Bytes, depth: nat) returns (v: Value)
    requires Skip(left, depth).Some?
    ensures Fits(v, depth) && Print(v) == left[..Skip(left, depth).value]
    decreases |left|, 0, 0
  {
    hide ReadStr, ReadNum, PrintStr, Skip, SkipEntries, ItemsFit, EntriesFit, PrintItems, PrintEntries, StrFits;
    SkipSomething(left, depth);
    SkipCases(left, depth);
    var n := Skip(left, depth).value;
    if IsDigit(left[0]) {
      StrReadSound(left);
      v := Str(ReadStr(left).value.bytes);
    } else if left[0] == LETTER_I {
      v := NumReadSound(left);
    } else if left[0] == LETTER_L {
      var items := ItemsSound(left[1..], MAX_ENTRIES + 1, depth + 1);
      v := List(items);
      assert left[..n] == [left[0]] + left[1..][..n - 1];
    } else {
      var entries := EntriesSound(left[1..], None, MAX_ENTRIES + 1, depth + 1);
      v := Dict(entries);
      assert left[..n] == [left[0]] + left[1..][..n - 1];
    }
  }

  lemma SkipSomething(left: Bytes, depth: nat)
    requires Skip(left, depth).Some?
    ensures depth <= MAX_DEPTH && left != []
    ensures IsDigit(left[0]) || left[0] == LETTER_I || left[0] == LETTER_L || left[0] == LETTER_D
  {
    hide ReadStr, ReadNum, SkipEntries;
  }

  lemma {:induction false} ItemsSound(left: Bytes, passes: nat, depth: nat) returns (items: Items)
    requires SkipEntries(left, false, None, passes, depth).Some?
    ensures passes >= 1 && ItemsFit(items, depth, passes - 1)
    ensures PrintItems(items) == left[..SkipEntries(left, false, None, passes, depth).value]
    decreases |left|, 1, passes
  {
    hide Fits, Print, Skip;
    if left[0] == LETTER_E {
      items := NoItems;
    } else {
      assert left[0..] == left;
      var n := Skip(left, depth).value;
      var value := ValueSound(left, depth);
      var more := ItemsSound(left[n..], passes - 1, depth);
      items := Item(value, more);
      var m := SkipEntries(left[n..], false, None, passes - 1, depth).value;
      assert left[..n + m] == left[..n] + left[n..][..m];
    }
  }

  lemma {:induction false} EntriesSound(left: Bytes, prior: Option<Bytes>, passes: nat, depth: nat)
    returns (entries: Entries)
    requires SkipEntries(left, true, prior, passes, depth).Some?
    ensures passes >= 1 && EntriesFit(entries, depth, passes - 1, prior)
    ensures PrintEntries(entries) == left[..SkipEntries(left, true, prior, passes, depth).value]
    decreases |left|, 1, passes
  {
    hide Fits, Print, Skip, ReadStr, PrintStr, Less, StrFits;
    if left[0] == LETTER_E {
      entries := NoEntries;
    } else {
      StrReadSound(left);
      var key := ReadStr(left).value;
      var k, left1 := key.length, left[key.length..];
      var n := Skip(left1, depth).value;
      var value := ValueSound(left1, depth);
      var left2 := left[k + n..];
      var more := EntriesSound(left2, Some(key.bytes), passes - 1, depth);
      entries := Entry(key.bytes, value, more);
      ThreePieces(left, k, n, SkipEntries(left2, true, Some(key.bytes), passes - 1, depth).value);
    }
  }

  lemma ThreePieces(s: Bytes, k: nat, n: nat, m: nat)
    requires k + n + m <= |s|
    ensures s[..k + n + m] == s[..k] + s[k..][..n] + s[k + n..][..m]
  {
  }

  /** The reader accepts and consumes exactly one well-formed value within its limits. */
  lemma SkipExact(left: Bytes, depth: nat, n: nat)
    ensures Skip(left, depth) == Some(n) <==> n <= |left| && exists v :: Fits(v, depth) && Print(v) == left[..n]
  {
    hide Skip, Fits, Print;
    if Skip(left, depth) == Some(n) {
      var v := ValueSound(left, depth);
      assert Fits(v, depth) && Print(v) == left[..n];
    }
    if n <= |left| {
      forall v | Fits(v, depth) && Print(v) == left[..n] ensures Skip(left, depth) == Some(n) {
        ValueRead(v, depth, left[n..]);
        assert left == left[..n] + left[n..];
      }
    }
  }

  /** No accepted value is a proper prefix of another. */
  lemma PrefixFree(v: Value, w: Value, depth: nat)
    requires Fits(v, depth) && Fits(w, depth) && Print(v) <= Print(w)
    ensures Print(v) == Print(w)
  {
    hide Skip, Fits, Print;
    var rest := Print(w)[|Print(v)|..];
    assert Print(w) == Print(v) + rest && Print(w) + [] == Print(w);
    ValueRead(v, depth, rest);
    ValueRead(w, depth, []);
  }
}

/** Setting a numeric field on the panel by arrow keys: the loop that compares the
    value shown with the target, and the panel it drives. */
module NumericField {
  import opened Wire
  import opened CommandQueue
  import opened Division
  import opened DecimalField

  const KEY_CANCEL: byte := 0x0e
  const LAST_ROUND := 100

  /** What a panel's field shows once these keys have been sent to it. */
  type Display = seq<byte> -> int

  /** A panel with one numeric field.  Nothing is asked of how it answers to keys. */
  class Panel {
    const show: Display
    var keys: seq<byte>

    constructor (show: Display)
      ensures this.show == show && keys == []
    {
      this.show, keys := show, [];
    }

    /** send_cmd */
    method Press(key: byte)
      modifies this
      ensures keys == old(keys) + [key]
    {
      keys := keys + [key];
    }
  }

  // --------------------------------------------------------------- specification

  /** What the wait of the next round looks for: the field, or the field with a value. */
  datatype Awaited = AnyValue | Value(v: int)

  datatype Outcome = Outcome(keys: seq<byte>, ok: bool)

  /** The text of a value begins with the text of v. */
  predicate BeginsWith(value: int, v: int)
    decreases if value >= 0 then value else -value
  {
    || value == v
    || (value >= 10 && BeginsWith(value / 10, v))
    || (value <= -10 && BeginsWith(-((-value) / 10), v))
  }

  /** The search is for a string that the message may run on behind: awaiting 7 also
      accepts 70. */
  predicate Seen(awaited: Awaited, value: int) {
    awaited.Value? ==> BeginsWith(value, awaited.v)
  }

  function KeyFor(target: int, value: int): byte {
    if target > value then KEY_RIGHT else if target < value then KEY_LEFT else KEY_ENTER
  }

  /** The field after a key that moves it by `step`. */
  function Moved(value: int, step: int, key: byte): int {
    if key == KEY_RIGHT then value + step else if key == KEY_LEFT then value - step else value
  }

  /** The rounds from round i on, with `keys` sent so far, against a panel that answers
      `answers` rounds in all. */
  function Rounds(target: int, increment: int, show: Display, answers: nat, keys: seq<byte>, awaited: Awaited,
                  i: nat): Outcome
    requires i <= LAST_ROUND
    decreases LAST_ROUND - i
  {
    var value := show(keys);
    if i >= answers || !Seen(awaited, value) then Outcome(keys + [KEY_CANCEL], false) else
    var key := KeyFor(target, value);
    if i == LAST_ROUND then Outcome(keys + [key] + [KEY_ENTER], true)
    else if target == value then Outcome(keys + [key], true)
    else Rounds(target, increment, show, answers, keys + [key], Value(Moved(value, increment, key)), i + 1)
  }

  /** One round's key, and what the next wait is to look for. */
  method SendKey(panel: Panel, target: int, current: int, increment: int) returns (awaited: Awaited)
    modifies panel
    ensures var key := KeyFor(target, current);
            panel.keys == old(panel.keys) + [key] && awaited == Value(Moved(current, increment, key))
  {
    if target > current {
      awaited := Value(current + increment);
      panel.Press(KEY_RIGHT);
    } else if target < current {
      awaited := Value(current - increment);
      panel.Press(KEY_LEFT);
    } else {
      awaited := Value(current);
      panel.Press(KEY_ENTER);
    }
  }

  /** waitForMessage */
  method WaitForMessage(panel: Panel, awaited: Awaited, answering: bool) returns (found: bool)
    ensures found == (answering && Seen(awaited, panel.show(panel.keys)))
  {
    found := answering && Seen(awaited, panel.show(panel.keys));
  }

  /** setAqualinkNumericField_new: the wait of a round fails when the panel has stopped
      answering or does not show what is awaited. */
  method SetNumericField(panel: Panel, target: int, increment: int, answers: nat) returns (ok: bool)
    modifies panel
    ensures Outcome(panel.keys, ok) == Rounds(target, increment, panel.show, answers, old(panel.keys), AnyValue, 0)
  {
    ghost var whole := Rounds(target, increment, panel.show, answers, panel.keys, AnyValue, 0);
    var current := -1;
    var awaited := AnyValue;
    var i := 0;
    while true
      invariant 0 <= i <= LAST_ROUND
      invariant whole == Rounds(target, increment, panel.show, answers, panel.keys, awaited, i)
      decreases LAST_ROUND - i
    {
      var found := WaitForMessage(panel, awaited, i < answers);
      if !found {
        panel.Press(KEY_CANCEL);
        return false;
      }
      current := panel.show(panel.keys);
      awaited := SendKey(panel, target, current, increment);
      if i >= LAST_ROUND {
        panel.Press(KEY_ENTER);
        break;
      }
      i := i + 1;
      if target == current {
        break;
      }
    }
    ok := true;
  }

  // --------------------------------------------------------------- printed numbers

  const MINUS: byte := 0x2d

  /** A number as it is printed. */
  function Text(v: int): seq<byte> {
    if v < 0 then [MINUS] + Digits(-v) else Digits(v)
  }

  /** The numbers whose text begins with another's, by their digits. */
  lemma {:induction false} BeginsWithDigits(value: nat, v: nat)
    ensures BeginsWith(value, v) <==> Digits(v) <= Digits(value)
  {
    DigitsLength(v);
    DigitsLength(value);
    if value >= 10 {
      BeginsWithDigits(value / 10, v);
      assert Digits(v) <= Digits(value) && Digits(v) != Digits(value) ==> Digits(v) <= Digits(value / 10);
      if Digits(v) == Digits(value) {
        SameDigits(v, value);
      }
    } else {
      if Digits(v) <= Digits(value) {
        SameDigits(v, value);
      }
    }
  }

  lemma {:induction false} BeginsWithSign(value: int, v: int)
    requires value > 0 && v > 0
    ensures BeginsWith(-value, -v) <==> BeginsWith(value, v)
    ensures !BeginsWith(value, -v) && !BeginsWith(-value, v) && !BeginsWith(-value, 0)
  {
    if value < 10 {
    } else {
      BeginsWithSign(value / 10, v);
    }
  }

  /** And those of either sign, by their text. */
  lemma BeginsWithText(value: int, v: int)
    ensures BeginsWith(value, v) <==> Text(v) <= Text(value)
  {
    FirstDigit(if value < 0 then -value else value);
    FirstDigit(if v < 0 then -v else v);
    if value >= 0 && v >= 0 {
      BeginsWithDigits(value, v);
    } else if value < 0 && v < 0 {
      BeginsWithDigits(-value, -v);
      BeginsWithSign(-value, -v);
      SameSign(Digits(-v), Digits(-value));
    } else if value < 0 {
      BeginsWithSign(-value, if v == 0 then 1 else v);
      assert Text(v)[0] != MINUS && Text(value)[0] == MINUS;
    } else {
      BeginsWithNegative(value, v);
      assert Text(v)[0] == MINUS && Text(value)[0] != MINUS;
    }
  }

  lemma SameSign(a: seq<byte>, b: seq<byte>)
    ensures [MINUS] + a <= [MINUS] + b <==> a <= b
  {
    assert ([MINUS] + a)[1..] == a && ([MINUS] + b)[1..] == b;
    if [MINUS] + a <= [MINUS] + b {
      assert forall i :: 0 <= i < |a| ==> a[i] == ([MINUS] + a)[i + 1] == ([MINUS] + b)[i + 1] == b[i];
    }
  }

  lemma BeginsWithNegative(value: nat, v: int)
    requires v < 0
    ensures !BeginsWith(value, v)
  {
    if value > 0 {
      BeginsWithSign(value, -v);
    }
  }

  /** A panel that shows 70 when 7 is awaited is taken to show 7. */
  lemma SeventySeenForSeven()
    ensures Seen(Value(7), 70)
  {
    assert BeginsWith(70 / 10, 7);
  }

  lemma SameDigits(a: nat, b: nat)
    requires Digits(a) == Digits(b)
    ensures a == b
  {
    FieldInjective(a, b);
  }

  // ------------------------------------------------------------- whether keys took

  /** The keys sent after i rounds that each sent an arrow, or an ENTER at the target. */
  function Path(target: int, show: Display, keys: seq<byte>, i: nat): seq<byte> {
    if i == 0 then keys
    else
      var before := Path(target, show, keys, i - 1);
      before + [if target > show(before) then KEY_RIGHT else if target < show(before) then KEY_LEFT else KEY_ENTER]
  }

  /** The number one increment nearer the target than the one shown after i rounds. */
  function Expects(target: int, inc: int, show: Display, keys: seq<byte>, i: nat): int {
    var value := show(Path(target, show, keys, i));
    if target > value then value + inc else if target < value then value - inc else value
  }

  /** Its text, or one that begins with it, is shown after one round more. */
  predicate Took(target: int, inc: int, show: Display, keys: seq<byte>, i: nat) {
    Text(Expects(target, inc, show, keys, i)) <= Text(show(Path(target, show, keys, i + 1)))
  }

  /** Round i sent an arrow. */
  predicate Underway(target: int, show: Display, keys: seq<byte>, i: nat) {
    show(Path(target, show, keys, i)) != target
  }

  /** The first r rounds sent arrows, and all of them took. */
  predicate AllTook(target: int, inc: int, show: Display, keys: seq<byte>, r: nat) {
    r == 0 ||
    (&& AllTook(target, inc, show, keys, r - 1)
     && Underway(target, show, keys, r - 1) && Took(target, inc, show, keys, r - 1))
  }

  lemma {:induction false} EachTook(target: int, inc: int, show: Display, keys: seq<byte>, r: nat, j: nat)
    requires AllTook(target, inc, show, keys, r) && j < r
    ensures Underway(target, show, keys, j) && Took(target, inc, show, keys, j)
  {
    if j < r - 1 {
      EachTook(target, inc, show, keys, r - 1, j);
    }
  }

  /** Where the rounds end, r of them having sent arrows that took: with the panel silent
      from then on, with the last round, with the target read, or with an arrow that did
      not take. */
  predicate EndsAt(target: int, inc: int, show: Display, answers: nat, keys: seq<byte>, r: nat, o: Outcome) {
    && r <= 100 && r <= answers && AllTook(target, inc, show, keys, r)
    && if r == answers then o == Outcome(Path(target, show, keys, r) + [KEY_CANCEL], false)
       else if r == 100 then o == Outcome(Path(target, show, keys, 101) + [KEY_ENTER], true)
       else if !Underway(target, show, keys, r) then o == Outcome(Path(target, show, keys, r + 1), true)
       else !Took(target, inc, show, keys, r) && o == Outcome(Path(target, show, keys, r + 1) + [KEY_CANCEL], false)
  }

  function Wanted(target: int, inc: int, show: Display, keys: seq<byte>, i: nat): Awaited {
    if i == 0 then AnyValue else Value(Expects(target, inc, show, keys, i - 1))
  }

  lemma SeenIffTook(target: int, inc: int, show: Display, keys: seq<byte>, i: nat)
    ensures Seen(Wanted(target, inc, show, keys, i), show(Path(target, show, keys, i))) <==>
            i == 0 || Took(target, inc, show, keys, i - 1)
  {
    if i > 0 {
      BeginsWithText(show(Path(target, show, keys, i)), Expects(target, inc, show, keys, i - 1));
    }
  }

  /** One round against a panel, whatever it shows. */
  lemma RoundOnPath(target: int, inc: int, show: Display, answers: nat, keys: seq<byte>, i: nat)
    requires i <= LAST_ROUND
    ensures var p, q := Path(target, show, keys, i), Path(target, show, keys, i + 1);
            Rounds(target, inc, show, answers, p, Wanted(target, inc, show, keys, i), i) ==
            if i >= answers || (i > 0 && !Took(target, inc, show, keys, i - 1)) then Outcome(p + [KEY_CANCEL], false)
            else if i == LAST_ROUND then Outcome(q + [KEY_ENTER], true)
            else if !Underway(target, show, keys, i) then Outcome(q, true)
            else Rounds(target, inc, show, answers, q, Wanted(target, inc, show, keys, i + 1), i + 1)
  {
    SeenIffTook(target, inc, show, keys, i);
  }

  /** The last of the rounds. */
  lemma LastRound(target: int, inc: int, show: Display, answers: nat, keys: seq<byte>, i: nat, o: Outcome)
    requires i <= LAST_ROUND && i <= answers && AllTook(target, inc, show, keys, i)
    requires o == Rounds(target, inc, show, answers, Path(target, show, keys, i), Wanted(target, inc, show, keys, i), i)
    requires i == answers || i == LAST_ROUND || !Underway(target, show, keys, i) || !Took(target, inc, show, keys, i)
    ensures EndsAt(target, inc, show, answers, keys, i, o)
  {
    RoundOnPath(target, inc, show, answers, keys, i);
    if i < LAST_ROUND {
      RoundOnPath(target, inc, show, answers, keys, i + 1);
    }
  }

  lemma {:induction false} RoundsOnPath(target: int, inc: int, show: Display, answers: nat, keys: seq<byte>, i: nat,
                                        o: Outcome)
    returns (r: nat)
    requires i <= LAST_ROUND && i <= answers && AllTook(target, inc, show, keys, i)
    requires o == Rounds(target, inc, show, answers, Path(target, show, keys, i), Wanted(target, inc, show, keys, i), i)
    ensures EndsAt(target, inc, show, answers, keys, r, o)
    decreases LAST_ROUND - i
  {
    if i < answers && i < LAST_ROUND && Underway(target, show, keys, i) && Took(target, inc, show, keys, i) {
      RoundOnPath(target, inc, show, answers, keys, i);
      assert AllTook(target, inc, show, keys, i + 1);
      r := RoundsOnPath(target, inc, show, answers, keys, i + 1, o);
    } else {
      LastRound(target, inc, show, answers, keys, i, o);
      r := i;
    }
  }

  /** Against any panel, whatever it shows and whenever it falls silent, the rounds end in
      exactly one of three ways: with success once the target is read or the last round is
      over, with one CANCEL directly behind the first arrow after which the panel shows no
      number that begins with the one expected, or with one CANCEL in the first round that
      gets no answer. */
  lemma ConfirmedOrCancelled(target: int, inc: int, show: Display, answers: nat, keys: seq<byte>) returns (r: nat)
    ensures EndsAt(target, inc, show, answers, keys, r, Rounds(target, inc, show, answers, keys, AnyValue, 0))
  {
    r := RoundsOnPath(target, inc, show, answers, keys, 0, Rounds(target, inc, show, answers, keys, AnyValue, 0));
  }

  /** So it succeeds if and only if the panel answers the first round, and every arrow sent
      before the target is read and before the last round is answered and took. */
  lemma SucceedsExactly(target: int, inc: int, show: Display, answers: nat, keys: seq<byte>)
    ensures Rounds(target, inc, show, answers, keys, AnyValue, 0).ok <==>
            answers > 0 &&
            forall j :: 0 <= j < 100 && (forall k :: 0 <= k <= j ==> Underway(target, show, keys, k)) ==>
                          Took(target, inc, show, keys, j) && j + 1 < answers
  {
    var r := ConfirmedOrCancelled(target, inc, show, answers, keys);
    forall j | 0 <= j < r ensures Underway(target, show, keys, j) && Took(target, inc, show, keys, j) {
      EachTook(target, inc, show, keys, r, j);
    }
  }

  /** A field that stays as it is: one arrow, one CANCEL. */
  lemma StuckFieldCancelled(answers: nat)
    requires answers > 0
    ensures Rounds(80, 1, keys => 78, answers, [], AnyValue, 0) == Outcome([KEY_RIGHT, KEY_CANCEL], false)
  {
    assert !BeginsWith(78, 79) by {
      assert !BeginsWith(7, 79);
    }
  }

  /** Against any panel at all, whatever it shows after whatever keys and whenever it falls
      silent, the loop stops within 101 rounds: at most 101 keys and a closing ENTER, or a
      CANCEL. */
  lemma {:induction false} AlwaysStops(target: int, inc: int, show: Display, answers: nat, keys: seq<byte>,
                                       awaited: Awaited, i: nat)
    requires i <= LAST_ROUND
    ensures var o := Rounds(target, inc, show, answers, keys, awaited, i);
            && keys < o.keys && |o.keys| <= |keys| + LAST_ROUND + 2 - i
            && o.keys[|o.keys| - 1] == (if o.ok then KEY_ENTER else KEY_CANCEL)
    decreases LAST_ROUND - i
  {
    var value := show(keys);
    if i < LAST_ROUND && i < answers && Seen(awaited, value) && target != value {
      var key := KeyFor(target, value);
      AlwaysStops(target, inc, show, answers, keys + [key], Value(Moved(value, inc, key)), i + 1);
    }
  }

  /** Success means that the last round read the target, or that it was the last one
      allowed. */
  lemma {:induction false} SuccessReadsTarget(target: int, inc: int, show: Display, answers: nat, keys: seq<byte>,
                                              awaited: Awaited, i: nat)
    requires i <= LAST_ROUND
    ensures var o := Rounds(target, inc, show, answers, keys, awaited, i);
            o.keys != [] && (o.ok && |o.keys| < |keys| + LAST_ROUND + 1 - i ==> show(o.keys[..|o.keys| - 1]) == target)
    decreases LAST_ROUND - i
  {
    var value := show(keys);
    if i < LAST_ROUND && i < answers && Seen(awaited, value) {
      var key := KeyFor(target, value);
      if target != value {
        SuccessReadsTarget(target, inc, show, answers, keys + [key], Value(Moved(value, inc, key)), i + 1);
      } else {
        assert (keys + [key])[..|keys|] == keys;
      }
    }
  }

  // --------------------------------------------------------------- stepping panels

  function Repeat(key: byte, n: nat): seq<byte> {
    if n == 0 then [] else Repeat(key, n - 1) + [key]
  }

  /** n * inc, one increment at a time. */
  function Times(n: nat, inc: int): int {
    if n == 0 then 0 else inc + Times(n - 1, inc)
  }

  lemma {:induction false} TimesIsProduct(n: nat, inc: int)
    ensures Times(n, inc) == n * inc
    ensures inc > 0 && n > 0 ==> Times(n, inc) > 0
  {
    if n == 0 {
    } else {
      TimesIsProduct(n - 1, inc);
      assert n * inc == (n - 1) * inc + inc;
    }
  }

  /** A panel whose field an arrow key moves by `step`, and no other key moves. */
  ghost predicate Steps(show: Display, step: int) {
    forall keys: seq<byte>, key: byte :: show(keys + [key]) == Moved(show(keys), step, key)
  }

  lemma KeyMoves(show: Display, step: int, keys: seq<byte>, key: byte)
    requires Steps(show, step)
    ensures show(keys + [key]) == Moved(show(keys), step, key)
  {
  }

  /** On such a panel every arrow takes. */
  lemma StepTakes(target: int, inc: int, show: Display, keys: seq<byte>, i: nat)
    requires Steps(show, inc)
    ensures show(Path(target, show, keys, i + 1)) == Expects(target, inc, show, keys, i)
    ensures Took(target, inc, show, keys, i)
  {
    var before := Path(target, show, keys, i);
    KeyMoves(show, inc, before, KeyFor(target, show(before)));
    assert Path(target, show, keys, i + 1) == before + [KeyFor(target, show(before))];
  }

  /** So the rounds end with the first that reads the target, or with the last. */
  lemma SteppingRounds(target: int, inc: int, show: Display, answers: nat, keys: seq<byte>, last: nat)
    returns (r: nat)
    requires answers > LAST_ROUND && Steps(show, inc) && last == LAST_ROUND
    ensures r <= last && (r < last ==> !Underway(target, show, keys, r))
    ensures forall j :: 0 <= j < r ==> Underway(target, show, keys, j)
    ensures Rounds(target, inc, show, answers, keys, AnyValue, 0) ==
            Outcome(Path(target, show, keys, r + 1) + (if r == last then [KEY_ENTER] else []), true)
  {
    r := ConfirmedOrCancelled(target, inc, show, answers, keys);
    StepTakes(target, inc, show, keys, r);
    forall j | 0 <= j < r ensures Underway(target, show, keys, j) {
      EachTook(target, inc, show, keys, r, j);
    }
  }

  /** n arrows of this kind lead from value to target. */
  predicate Leads(arrow: byte, value: int, n: nat, inc: int, target: int) {
    || (arrow == KEY_RIGHT && target == value + Times(n, inc))
    || (arrow == KEY_LEFT && target == value - Times(n, inc))
  }

  lemma LeadsOn(arrow: byte, value: int, n: nat, inc: int, target: int)
    requires inc > 0 && Leads(arrow, value, n, inc, target)
    ensures n == 0 <==> value == target
    ensures n > 0 ==> KeyFor(target, value) == arrow && Leads(arrow, Moved(value, inc, arrow), n - 1, inc, target)
  {
    TimesIsProduct(n, inc);
  }

  /** One arrow more behind these keys. */
  lemma ArrowLeads(target: int, inc: int, show: Display, keys: seq<byte>, k: nat, arrow: byte)
    requires inc > 0 && Steps(show, inc) && Leads(arrow, show(keys), k, inc, target) && k > 0
    ensures KeyFor(target, show(keys)) == arrow && Leads(arrow, show(keys + [arrow]), k - 1, inc, target)
  {
    LeadsOn(arrow, show(keys), k, inc, target);
    KeyMoves(show, inc, keys, arrow);
  }

  lemma PathGrows(target: int, show: Display, keys: seq<byte>, i: nat, sent: seq<byte>)
    requires Path(target, show, keys, i) == keys + sent
    ensures Path(target, show, keys, i + 1) == keys + (sent + [KeyFor(target, show(keys + sent))])
  {
    assert (keys + sent) + [KeyFor(target, show(keys + sent))] == keys + (sent + [KeyFor(target, show(keys + sent))]);
  }

  lemma RepeatGrows(keys: seq<byte>, arrow: byte, i: nat)
    requires i > 0
    ensures keys + Repeat(arrow, i) == (keys + Repeat(arrow, i - 1)) + [arrow]
  {
  }

  lemma {:induction false} ArrowsLead(target: int, inc: int, show: Display, keys: seq<byte>, n: nat, arrow: byte,
                                      i: nat)
    requires inc > 0 && Steps(show, inc) && Leads(arrow, show(keys), n, inc, target) && i <= n
    ensures Leads(arrow, show(keys + Repeat(arrow, i)), n - i, inc, target)
  {
    if i == 0 {
      assert keys + Repeat(arrow, 0) == keys;
    } else {
      ArrowsLead(target, inc, show, keys, n, arrow, i - 1);
      ArrowLeads(target, inc, show, keys + Repeat(arrow, i - 1), n - (i - 1), arrow);
      RepeatGrows(keys, arrow, i);
    }
  }

  lemma {:induction false} ArrowsOnly(target: int, inc: int, show: Display, keys: seq<byte>, n: nat, arrow: byte,
                                      i: nat)
    requires inc > 0 && Steps(show, inc) && Leads(arrow, show(keys), n, inc, target) && i <= n
    ensures Path(target, show, keys, i) == keys + Repeat(arrow, i)
  {
    if i == 0 {
      assert keys + Repeat(arrow, 0) == keys;
    } else {
      ArrowsOnly(target, inc, show, keys, n, arrow, i - 1);
      ArrowsLead(target, inc, show, keys, n, arrow, i - 1);
      ArrowLeads(target, inc, show, keys + Repeat(arrow, i - 1), n - (i - 1), arrow);
      PathGrows(target, show, keys, i - 1, Repeat(arrow, i - 1));
    }
  }

  /** From n arrows away the first n rounds all send that arrow. */
  lemma StraightPath(target: int, inc: int, show: Display, keys: seq<byte>, n: nat, arrow: byte, i: nat)
    requires inc > 0 && Steps(show, inc) && Leads(arrow, show(keys), n, inc, target) && i <= n
    ensures Path(target, show, keys, i) == keys + Repeat(arrow, i)
    ensures Leads(arrow, show(Path(target, show, keys, i)), n - i, inc, target)
    ensures Underway(target, show, keys, i) <==> i < n
  {
    ArrowsOnly(target, inc, show, keys, n, arrow, i);
    ArrowsLead(target, inc, show, keys, n, arrow, i);
    LeadsOn(arrow, show(Path(target, show, keys, i)), n - i, inc, target);
  }

  /** What goes out from n arrows away, and where it leaves the field. */
  function Sent(arrow: byte, n: nat, last: nat): seq<byte> {
    if n < last then Repeat(arrow, n) + [KEY_ENTER]
    else if n == last then Repeat(arrow, n) + [KEY_ENTER] + [KEY_ENTER]
    else Repeat(arrow, last + 1) + [KEY_ENTER]
  }

  lemma StraightRounds(target: int, inc: int, show: Display, answers: nat, keys: seq<byte>, n: nat, arrow: byte,
                       last: nat)
    returns (r: nat)
    requires inc > 0 && answers > LAST_ROUND && Steps(show, inc) && last == LAST_ROUND
    requires Leads(arrow, show(keys), n, inc, target)
    ensures r == if n < last then n else last
    ensures Rounds(target, inc, show, answers, keys, AnyValue, 0) ==
            Outcome(Path(target, show, keys, r + 1) + (if r == last then [KEY_ENTER] else []), true)
  {
    r := SteppingRounds(target, inc, show, answers, keys, last);
    var j := if r < n then r else n;
    assert j < r ==> Underway(target, show, keys, j);
    StraightPath(target, inc, show, keys, n, arrow, j);
  }

  lemma ArrowsAndEnter(target: int, inc: int, show: Display, answers: nat, keys: seq<byte>, n: nat, arrow: byte,
                       last: nat)
    requires inc > 0 && answers > LAST_ROUND && Steps(show, inc) && last == LAST_ROUND
    requires Leads(arrow, show(keys), n, inc, target)
    ensures Rounds(target, inc, show, answers, keys, AnyValue, 0) == Outcome(keys + Sent(arrow, n, last), true)
    ensures show(keys + Sent(arrow, n, last)) == target <==> n <= last + 1
  {
    var r := StraightRounds(target, inc, show, answers, keys, n, arrow, last);
    if n <= last {
      EnterAtTarget(target, inc, show, keys, n, arrow);
    } else {
      EnterBefore(target, inc, show, keys, n, arrow, last + 1);
    }
  }

  lemma EnterAtTarget(target: int, inc: int, show: Display, keys: seq<byte>, n: nat, arrow: byte)
    requires inc > 0 && Steps(show, inc) && Leads(arrow, show(keys), n, inc, target)
    ensures var p, sent := Path(target, show, keys, n + 1), Repeat(arrow, n) + [KEY_ENTER];
            && p == keys + sent && p + [KEY_ENTER] == keys + (sent + [KEY_ENTER])
            && show(keys + sent) == target && show(keys + (sent + [KEY_ENTER])) == target
  {
    StraightPath(target, inc, show, keys, n, arrow, n);
    var p := Path(target, show, keys, n + 1);
    assert p == (keys + Repeat(arrow, n)) + [KEY_ENTER] == keys + (Repeat(arrow, n) + [KEY_ENTER]);
    KeyMoves(show, inc, keys + Repeat(arrow, n), KEY_ENTER);
    KeyMoves(show, inc, p, KEY_ENTER);
    assert p + [KEY_ENTER] == keys + (Repeat(arrow, n) + [KEY_ENTER] + [KEY_ENTER]);
  }

  lemma EnterBefore(target: int, inc: int, show: Display, keys: seq<byte>, n: nat, arrow: byte, m: nat)
    requires inc > 0 && Steps(show, inc) && Leads(arrow, show(keys), n, inc, target) && m <= n
    ensures var sent := Repeat(arrow, m) + [KEY_ENTER];
            Path(target, show, keys, m) + [KEY_ENTER] == keys + sent && (show(keys + sent) == target <==> n == m)
  {
    StraightPath(target, inc, show, keys, n, arrow, m);
    KeyMoves(show, inc, keys + Repeat(arrow, m), KEY_ENTER);
    assert (keys + Repeat(arrow, m)) + [KEY_ENTER] == keys + (Repeat(arrow, m) + [KEY_ENTER]);
  }

  /** d % inc, found by stepping. */
  function Residue(d: int, inc: int): int
    requires inc > 0
    decreases d < 0, if d < 0 then -d else d
  {
    if d < 0 then Residue(d + inc, inc) else if d < inc then d else Residue(d - inc, inc)
  }

  lemma {:induction false} ResidueIs(d: int, inc: int)
    requires inc > 0
    ensures Residue(d, inc) == d % inc
    decreases d < 0, if d < 0 then -d else d
  {
    if d < 0 {
      ResidueIs(d + inc, inc);
      StepRemainder(d, inc);
    } else if d < inc {
      RemainderUnique(d, inc, 0, d);
    } else {
      ResidueIs(d - inc, inc);
      StepRemainder(d - inc, inc);
    }
  }

  lemma StepRemainder(d: int, inc: int)
    requires inc > 0
    ensures (d + inc) % inc == d % inc
  {
    var q, r := d / inc, d % inc;
    assert d + inc == inc * (q + 1) + r;
    RemainderUnique(d + inc, inc, q + 1, r);
  }

  predicate Arrows(keys: seq<byte>) {
    forall j :: 0 <= j < |keys| ==> keys[j] == KEY_RIGHT || keys[j] == KEY_LEFT
  }

  lemma ArrowKeepsResidue(target: int, inc: int, value: int, key: byte)
    requires inc > 0
    ensures Residue(target - Moved(value, inc, key), inc) == Residue(target - value, inc)
  {
  }

  /** From a start not congruent to the target every round sends an arrow, and the field
      stays beside the target. */
  lemma {:induction false} CrookedPath(target: int, inc: int, show: Display, keys: seq<byte>, i: nat)
    returns (arrows: seq<byte>)
    requires inc > 0 && Steps(show, inc) && Residue(target - show(keys), inc) != 0
    ensures Path(target, show, keys, i) == keys + arrows && |arrows| == i && Arrows(arrows)
    ensures Residue(target - show(keys + arrows), inc) != 0 && Underway(target, show, keys, i)
  {
    if i == 0 {
      arrows := [];
      assert keys + arrows == keys;
    } else {
      var before := CrookedPath(target, inc, show, keys, i - 1);
      var key := KeyFor(target, show(keys + before));
      KeyMoves(show, inc, keys + before, key);
      ArrowKeepsResidue(target, inc, show(keys + before), key);
      arrows := before + [key];
      assert keys + arrows == (keys + before) + [key];
    }
  }

  lemma ArrowsToTheEnd(target: int, inc: int, show: Display, answers: nat, keys: seq<byte>, last: nat)
    returns (arrows: seq<byte>)
    requires inc > 0 && answers > LAST_ROUND && Steps(show, inc) && last == LAST_ROUND
    requires (target - show(keys)) % inc != 0
    ensures |arrows| == last + 1 && Arrows(arrows)
    ensures Rounds(target, inc, show, answers, keys, AnyValue, 0) == Outcome(keys + (arrows + [KEY_ENTER]), true)
    ensures show(keys + (arrows + [KEY_ENTER])) != target
  {
    ResidueIs(target - show(keys), inc);
    var r := SteppingRounds(target, inc, show, answers, keys, last);
    var before := CrookedPath(target, inc, show, keys, r);
    arrows := CrookedPath(target, inc, show, keys, last + 1);
    KeyMoves(show, inc, keys + arrows, KEY_ENTER);
    assert keys + (arrows + [KEY_ENTER]) == (keys + arrows) + [KEY_ENTER];
  }

  /** How many arrows away the target is. */
  function Away(target: int, start: int, inc: int): nat
    requires inc > 0
  {
    (if target >= start then target - start else start - target) / inc
  }

  function ArrowTo(target: int, start: int): byte {
    if target >= start then KEY_RIGHT else KEY_LEFT
  }

  /** Convergence: from a congruent start at most 99 steps away exactly that many arrows
      go out, all one way, then one ENTER with the field at the target. */
  lemma Converges(target: int, inc: int, show: Display, answers: nat, keys: seq<byte>)
    requires inc > 0 && answers > LAST_ROUND && Steps(show, inc) && (target - show(keys)) % inc == 0
    requires Away(target, show(keys), inc) <= 99
    ensures var arrow, n := ArrowTo(target, show(keys)), Away(target, show(keys), inc);
            var sent := keys + (Repeat(arrow, n) + [KEY_ENTER]);
            Rounds(target, inc, show, answers, keys, AnyValue, 0) == Outcome(sent, true) && show(sent) == target
  {
    ArrowsAway(target, show(keys), inc);
    ArrowsAndEnter(target, inc, show, answers, keys, Away(target, show(keys), inc), ArrowTo(target, show(keys)),
                   LAST_ROUND);
  }

  lemma ArrowsAway(target: int, start: int, inc: int)
    requires inc > 0 && (target - start) % inc == 0
    ensures Leads(ArrowTo(target, start), start, Away(target, start, inc), inc, target)
  {
    var d := target - start;
    TimesIsProduct(Away(target, start, inc), inc);
    if d < 0 {
      var q := d / inc;
      assert d == inc * q && -d == inc * (-q);
      RemainderUnique(-d, inc, -q, 0);
    }
  }

  /** The loop claims success in every case, but the field ends at the target if and only
      if the start is congruent to it and at most 101 steps away. */
  lemma EndsAtTarget(target: int, inc: int, show: Display, answers: nat, keys: seq<byte>)
    requires inc > 0 && answers > LAST_ROUND && Steps(show, inc)
    ensures var o := Rounds(target, inc, show, answers, keys, AnyValue, 0);
            o.ok && (show(o.keys) == target <==>
                     (target - show(keys)) % inc == 0 && Away(target, show(keys), inc) <= 101)
  {
    if (target - show(keys)) % inc == 0 {
      ArrowsAway(target, show(keys), inc);
      ArrowsAndEnter(target, inc, show, answers, keys, Away(target, show(keys), inc), ArrowTo(target, show(keys)),
                     LAST_ROUND);
    } else {
      var arrows := ArrowsToTheEnd(target, inc, show, answers, keys, LAST_ROUND);
    }
  }

  /** Exactly 100 steps away the ENTER goes out twice. */
  lemma HundredStepsEnterTwice(target: int, inc: int, show: Display, answers: nat, keys: seq<byte>)
    requires inc > 0 && answers > LAST_ROUND && Steps(show, inc) && (target - show(keys)) % inc == 0
    requires Away(target, show(keys), inc) == 100
    ensures Rounds(target, inc, show, answers, keys, AnyValue, 0).keys ==
            keys + (Repeat(ArrowTo(target, show(keys)), 100) + [KEY_ENTER] + [KEY_ENTER])
  {
    ArrowsAway(target, show(keys), inc);
    ArrowsAndEnter(target, inc, show, answers, keys, Away(target, show(keys), inc), ArrowTo(target, show(keys)),
                   LAST_ROUND);
  }

  function Count(keys: seq<byte>, key: byte): nat {
    if keys == [] then 0 else Count(keys[..|keys| - 1], key) + if keys[|keys| - 1] == key then 1 else 0
  }

  lemma CountSnoc(keys: seq<byte>, last: byte, key: byte)
    ensures Count(keys + [last], key) == Count(keys, key) + if last == key then 1 else 0
  {
    assert (keys + [last])[..|keys|] == keys;
  }

  lemma {:induction false} NoneOf(keys: seq<byte>, key: byte)
    requires key !in keys
    ensures Count(keys, key) == 0
  {
    if keys == [] {
    } else {
      NoneOf(keys[..|keys| - 1], key);
    }
  }

  lemma {:induction false} RepeatHolds(key: byte, n: nat)
    ensures forall k :: k in Repeat(key, n) ==> k == key
  {
    if n == 0 {
    } else {
      RepeatHolds(key, n - 1);
    }
  }

  /** Arrows, one ENTER, and perhaps another. */
  lemma EntersBehind(arrows: seq<byte>)
    requires KEY_ENTER !in arrows
    ensures Count(arrows + [KEY_ENTER], KEY_ENTER) == 1 && Count(arrows + [KEY_ENTER] + [KEY_ENTER], KEY_ENTER) == 2
  {
    NoneOf(arrows, KEY_ENTER);
    CountSnoc(arrows, KEY_ENTER, KEY_ENTER);
    CountSnoc(arrows + [KEY_ENTER], KEY_ENTER, KEY_ENTER);
  }

  lemma SentEnters(arrow: byte, n: nat, last: nat)
    requires arrow != KEY_ENTER
    ensures Count(Sent(arrow, n, last), KEY_ENTER) == if n == last then 2 else 1
  {
    var k := if n <= last then n else last + 1;
    RepeatHolds(arrow, k);
    EntersBehind(Repeat(arrow, k));
  }

  /** On a panel that moves by the increment and keeps answering, ENTER goes out exactly
      once, except that it goes out twice if the start is congruent to the target and
      exactly 100 steps away. */
  lemma EnterOnceUnlessHundred(target: int, inc: int, show: Display, answers: nat, keys: seq<byte>)
    requires inc > 0 && answers > LAST_ROUND && Steps(show, inc)
    ensures var o := Rounds(target, inc, show, answers, keys, AnyValue, 0);
            && keys <= o.keys
            && Count(o.keys[|keys|..], KEY_ENTER) ==
               if (target - show(keys)) % inc == 0 && Away(target, show(keys), inc) == 100 then 2 else 1
  {
    var o := Rounds(target, inc, show, answers, keys, AnyValue, 0);
    if (target - show(keys)) % inc == 0 {
      var arrow, n := ArrowTo(target, show(keys)), Away(target, show(keys), inc);
      ArrowsAway(target, show(keys), inc);
      ArrowsAndEnter(target, inc, show, answers, keys, n, arrow, LAST_ROUND);
      SentEnters(arrow, n, LAST_ROUND);
      assert o.keys[|keys|..] == Sent(arrow, n, LAST_ROUND);
    } else {
      var arrows := ArrowsToTheEnd(target, inc, show, answers, keys, LAST_ROUND);
      EntersBehind(arrows);
      assert o.keys[|keys|..] == arrows + [KEY_ENTER];
    }
  }

  /** There is a panel for every start and step. */
  function SteppingPanel(start: int, step: int): Display {
    keys => start + step * (Count(keys, KEY_RIGHT) - Count(keys, KEY_LEFT))
  }

  lemma SteppingPanelSteps(start: int, step: int)
    ensures Steps(SteppingPanel(start, step), step) && SteppingPanel(start, step)([]) == start
  {
    var show := SteppingPanel(start, step);
    forall keys: seq<byte>, key: byte ensures show(keys + [key]) == Moved(show(keys), step, key) {
      CountSnoc(keys, key, KEY_RIGHT);
      CountSnoc(keys, key, KEY_LEFT);
      OneMore(step, Count(keys, KEY_RIGHT) - Count(keys, KEY_LEFT));
    }
  }

  lemma OneMore(step: int, d: int)
    ensures step * (d + 1) == step * d + step && step * (d - 1) == step * d - step
  {
  }
}

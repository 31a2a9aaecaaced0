/** Which lines addresses stand for, stated without how they are evaluated. */
module AddressLaws {
  import opened Outcomes
  import opened Addresses

  /** The line that a single address stands for, whether or not there is such a line. */
  predicate Denotes(address: Address, current: nat, count: nat, line: int) {
    match address
    case Absolute(number) => line == number
    case Current => line == current
    case Last => line == count
    case Relative(true, distance) => line == current + distance
    case Relative(false, distance) => line + distance == current
    case Range(_, _) => false
  }

  predicate Exists(line: int, count: nat) {
    1 <= line <= count
  }

  /** A single address selects exactly the existing line that it stands for. */
  lemma {:induction false} SingleSelects(address: Address, current: nat, count: nat, line: nat)
    requires !address.Range?
    ensures Evaluate(Some(address), current, count) == Ok(LineRange(line, line)) <==>
            Denotes(address, current, count, line) && Exists(line, count)
  {
    hide EvaluateSingle, Denotes;
    SingleIsDenoted(address, current, count, line);
  }

  /** A pair selects the lines from the one to the other, if both exist and are in order. */
  lemma {:induction false} PairSelects(first: Address, last: Address, current: nat, count: nat, range: LineRange)
    ensures Evaluate(Some(Range(first, last)), current, count) == Ok(range) <==>
            && Denotes(first, current, count, range.first) && Denotes(last, current, count, range.last)
            && Exists(range.first, count) && Exists(range.last, count) && range.first <= range.last
  {
    hide EvaluateSingle, Denotes;
    SingleIsDenoted(first, current, count, range.first);
    SingleIsDenoted(last, current, count, range.last);
  }

  lemma {:induction false} SingleIsDenoted(address: Address, current: nat, count: nat, line: nat)
    ensures EvaluateSingle(address, current, count) == Ok(line) <==>
            Denotes(address, current, count, line) && Exists(line, count)
  {
  }

  /** Without an address, the current line is selected, if there is one. */
  lemma {:induction false} NothingSelects(current: nat, count: nat, range: LineRange)
    ensures Evaluate(None, current, count) == Ok(range) <==>
            range == LineRange(current, current) && Exists(current, count)
  {
  }

  /** The lines that an optional address selects. */
  predicate Selects(address: Option<Address>, current: nat, count: nat, range: LineRange) {
    && Exists(range.first, count) && Exists(range.last, count) && range.first <= range.last
    && match address
       case None => range.first == range.last == current
       case Some(Range(first, last)) =>
         Denotes(first, current, count, range.first) && Denotes(last, current, count, range.last)
       case Some(single) => range.first == range.last && Denotes(single, current, count, range.first)
  }

  /** Every address selects exactly these lines, and fails if it selects none. */
  lemma {:induction false} AddressSelects(address: Option<Address>, current: nat, count: nat, range: LineRange)
    ensures Evaluate(address, current, count) == Ok(range) <==> Selects(address, current, count, range)
    ensures Evaluate(address, current, count).Fail? <==> forall r :: !Selects(address, current, count, r)
  {
    hide Evaluate, Denotes, Exists;
    var r := Evaluate(address, current, count);
    forall q: LineRange ensures r == Ok(q) <==> Selects(address, current, count, q) {
      SelectsOne(address, current, count, q);
    }
    if r.Ok? {
      assert Selects(address, current, count, r.value);
    }
  }

  lemma {:induction false} SelectsOne(address: Option<Address>, current: nat, count: nat, range: LineRange)
    ensures Evaluate(address, current, count) == Ok(range) <==> Selects(address, current, count, range)
  {
    hide Evaluate, Denotes;
    match address
    case None => NothingSelects(current, count, range);
    case Some(Range(first, last)) => PairSelects(first, last, current, count, range);
    case Some(single) =>
      SingleSelects(single, current, count, range.first);
      IsOneLine(single, current, count);
  }

  lemma {:induction false} IsOneLine(single: Address, current: nat, count: nat)
    requires !single.Range?
    ensures var r := Evaluate(Some(single), current, count); r.Ok? ==> r.value.first == r.value.last
  {
  }

  // ---------------------------------------------------------------- where lines go

  /** Where a single line that text goes in front of or behind is: the line that a single address stands for, or 0. */
  predicate Points(address: Address, current: nat, count: nat, line: nat) {
    if address == Absolute(0) then line == 0 else Denotes(address, current, count, line) && Exists(line, count)
  }

  /** `A` inserts behind the line that its address points to, and at the end without one. */
  lemma {:induction false} AppendGoesBehind(address: Option<Address>, current: nat, count: nat, after: nat)
    ensures AppendPosition(address, current, count) == Ok(after) <==>
            if address.None? then after == count else Points(address.value, current, count, after)
  {
    if address.Some? && !address.value.Range? {
      SingleSelects(address.value, current, count, after);
    }
  }

  /** `I` inserts in front of the line that its address points to, and of the current one without one; in front of
    line 0 is the beginning, and so it is without an address in an empty buffer. */
  lemma {:induction false} InsertGoesBefore(address: Option<Address>, current: nat, count: nat, after: nat)
    requires current <= count
    ensures InsertPosition(address, current, count) == Ok(after) <==>
            if address.None? then (if count == 0 then after == 0 else after + 1 == current)
            else if address == Some(Absolute(0)) then after == 0
            else Points(address.value, current, count, after + 1)
  {
    if address.Some? && !address.value.Range? {
      SingleSelects(address.value, current, count, after + 1);
    }
  }

  /** `T` copies behind the line that its destination points to. */
  lemma {:induction false} TransferGoesBehind(destination: Option<Address>, current: nat, count: nat, after: nat)
    ensures TransferDestination(destination, current, count) == Ok(after) <==>
            destination.Some? && Points(destination.value, current, count, after)
  {
    if destination.Some? && !destination.value.Range? {
      SingleSelects(destination.value, current, count, after);
    }
  }

  /** `R` inserts behind the one line that its address selects; in an empty buffer, `$` is the place in front of
    everything. */
  lemma {:induction false} ReadGoesBehind(address: Address, current: nat, count: nat, after: nat)
    ensures ReadPosition(address, current, count) == Ok(after) <==>
            if count == 0 then address.Last? && after == 0
            else Selects(Some(address), current, count, LineRange(after, after))
  {
    hide Evaluate, Selects;
    SelectsOne(Some(address), current, count, LineRange(after, after));
  }
}

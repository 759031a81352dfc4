/** Per-city aggregation, as `single_threaded_hacked_floats` and
    `single_threaded` do it: each line is split into a city and a temperature
    text, the temperature is parsed, and a map from city to statistics is
    created on the first sighting of a city and updated on every later one;
    at the end the entries are listed in ascending city order.

    The two loops differ in what they compare: the hacked loop keeps `min` and
    `max` as `HackFloat`s compared with `<` and `>`, the other keeps them as
    numbers combined with `f64::min` and `f64::max`.  Both keep a running
    `mean` of the parsed number.  Numbers are idealised as reals; the `f64`
    parse is a parameter, since its rounding is not modelled. */
module Aggregation {
  import opened Wrappers
  import opened HackFloats
  import opened Fields
  import opened Tables

  /** The `unwrap` that panics on a line: no `;`, a temperature `HackFloat`
      cannot read, or one the `f64` parse rejects. */
  datatype Fault = MalformedRecord | InvalidHackFloat | InvalidNumber

  /** One parsed line: the city, the value compared for `min` and `max`, and
      the number averaged into `mean`. */
  datatype Reading<V> = Reading(city: string, value: V, number: real)

  /** `ResultHackedFloat` (V = HackFloat) and `Result` (V = real).  `len` is a
      `u32` in the source; here it is unbounded. */
  datatype Stats<V> = Stats(min: V, max: V, mean: real, len: nat)

  // ---------------------------------------------------------------------------
  // Reading lines.

  /** One line of the hacked loop: split, `parse::<HackFloat>`, `parse::<f64>`,
      in that order, the first failure deciding. */
  function ReadHacked(line: string, parseNumber: string -> Option<real>): (r: Result<Reading<HackFloat>, Fault>)
    ensures r.Success? <==> SplitFields(line).Some? && FromStr(SplitFields(line).value.1).Some?
                            && parseNumber(SplitFields(line).value.1).Some?
    ensures r.Success? ==> SplitFields(line) == Some((r.value.city, SplitFields(line).value.1))
    ensures r.Success? ==>
              var (city, temp) := SplitFields(line).value;
              r.value == Reading(city, FromStr(temp).value, parseNumber(temp).value)
    ensures r == Failure(MalformedRecord) <==> Separator !in line
    ensures r == Failure(InvalidHackFloat) <==> SplitFields(line).Some? && FromStr(SplitFields(line).value.1).None?
    ensures r == Failure(InvalidNumber) <==>
              SplitFields(line).Some? && FromStr(SplitFields(line).value.1).Some?
              && parseNumber(SplitFields(line).value.1).None?
  {
    match SplitFields(line)
    case None => Failure(MalformedRecord)
    case Some((city, temp)) =>
      match FromStr(temp)
      case None => Failure(InvalidHackFloat)
      case Some(hacked) =>
        match parseNumber(temp)
        case None => Failure(InvalidNumber)
        case Some(number) => Success(Reading(city, hacked, number))
  }

  /** One line of the plain loop: split, then `parse::<f64>`; the value compared
      is the number itself. */
  function ReadFloat(line: string, parseNumber: string -> Option<real>): (r: Result<Reading<real>, Fault>)
    ensures r.Success? <==> SplitFields(line).Some? && parseNumber(SplitFields(line).value.1).Some?
    ensures r.Success? ==> r.value.value == r.value.number
    ensures r.Success? ==>
              var (city, temp) := SplitFields(line).value;
              r.value == Reading(city, parseNumber(temp).value, parseNumber(temp).value)
    ensures r == Failure(MalformedRecord) <==> Separator !in line
    ensures r == Failure(InvalidNumber) <==> SplitFields(line).Some? && parseNumber(SplitFields(line).value.1).None?
    ensures r != Failure(InvalidHackFloat)
  {
    match SplitFields(line)
    case None => Failure(MalformedRecord)
    case Some((city, temp)) =>
      match parseNumber(temp)
      case None => Failure(InvalidNumber)
      case Some(number) => Success(Reading(city, number, number))
  }

  function HackedReader(parseNumber: string -> Option<real>): string -> Result<Reading<HackFloat>, Fault>
  {
    line => ReadHacked(line, parseNumber)
  }

  function FloatReader(parseNumber: string -> Option<real>): string -> Result<Reading<real>, Fault>
  {
    line => ReadFloat(line, parseNumber)
  }

  /** All lines read in order; the first line that fails decides the fault,
      as the first panic ends the loop. */
  function ReadAll<V>(lines: seq<string>, read: string -> Result<Reading<V>, Fault>): (r: Result<seq<Reading<V>>, Fault>)
    ensures r.Success? <==> forall i | 0 <= i < |lines| :: read(lines[i]).Success?
    ensures r.Success? ==> |r.value| == |lines| && forall i | 0 <= i < |lines| :: read(lines[i]) == Success(r.value[i])
    ensures r.Failure? ==> exists i | 0 <= i < |lines| :: read(lines[i]) == Failure(r.error)
                              && forall j | 0 <= j < i :: read(lines[j]).Success?
  {
    if lines == [] then Success([])
    else
      var front := lines[..|lines| - 1];
      var last := lines[|lines| - 1];
      assert forall i | 0 <= i < |front| :: front[i] == lines[i];
      match ReadAll(front, read)
      case Failure(f) => Failure(f)
      case Success(rs) =>
        match read(last)
        case Failure(f) => Failure(f)
        case Success(r) => Success(rs + [r])
  }

  /** Once a prefix of the lines fails, the whole run fails the same way. */
  lemma {:induction false} ReadAllFailureStays<V>(lines: seq<string>, n: nat, read: string -> Result<Reading<V>, Fault>)
    requires n <= |lines| && ReadAll(lines[..n], read).Failure?
    ensures ReadAll(lines, read) == ReadAll(lines[..n], read)
    decreases |lines| - n
  {
    if n < |lines| {
      var longer := lines[..n + 1];
      assert longer[..n] == lines[..n];
      assert ReadAll(longer, read) == ReadAll(lines[..n], read);
      ReadAllFailureStays(lines, n + 1, read);
    } else {
      assert lines[..n] == lines;
    }
  }

  /** Reading one more line extends the readings or fails with that line's fault. */
  lemma ReadAllStep<V>(lines: seq<string>, i: nat, read: string -> Result<Reading<V>, Fault>)
    requires i < |lines| && ReadAll(lines[..i], read).Success?
    ensures read(lines[i]).Failure? ==> ReadAll(lines, read) == Failure(read(lines[i]).error)
    ensures read(lines[i]).Success? ==>
              ReadAll(lines[..i + 1], read) == Success(ReadAll(lines[..i], read).value + [read(lines[i]).value])
  {
    var longer := lines[..i + 1];
    assert longer[..i] == lines[..i];
    if read(lines[i]).Failure? {
      ReadAllFailureStays(lines, i + 1, read);
    }
  }

  // ---------------------------------------------------------------------------
  // The statistics.

  /** `less` is a strict order: irreflexive and transitive. */
  ghost predicate StrictOrder<V(!new)>(less: (V, V) -> bool)
  {
    && (forall a :: !less(a, a))
    && (forall a, b, c :: less(a, b) && less(b, c) ==> less(a, c))
  }

  /** `<` on numbers. */
  predicate RealLess(a: real, b: real)
  {
    a < b
  }

  /** `f64::min` and `f64::max`, on numbers without NaN. */
  function F64Min(a: real, b: real): (r: real)
    ensures r == a || r == b
    ensures r <= a && r <= b
  {
    if b < a then b else a
  }

  function F64Max(a: real, b: real): (r: real)
    ensures r == a || r == b
    ensures a <= r && b <= r
  {
    if a < b then b else a
  }

  lemma RealLessStrict()
    ensures StrictOrder(RealLess)
  {
  }

  lemma HackLtStrict()
    ensures StrictOrder(Lt)
  {
    forall a, b, c | Lt(a, b) && Lt(b, c)
      ensures Lt(a, c)
    {
      CmpTotalOrder(a, b, c);
    }
    forall a
      ensures !Lt(a, a)
    {
      CmpTotalOrder(a, a, a);
    }
  }

  /** A later sighting: a smaller value replaces `min`, a larger one `max`, and
      the mean moves toward the new number by one part in the new count. */
  function Update<V(!new)>(c: Stats<V>, r: Reading<V>, less: (V, V) -> bool): (u: Stats<V>)
    requires StrictOrder(less)
    ensures u.len == c.len + 1
    ensures (u.min == c.min || u.min == r.value) && !less(r.value, u.min) && !less(c.min, u.min)
    ensures (u.max == c.max || u.max == r.value) && !less(u.max, r.value) && !less(u.max, c.max)
  {
    var newLen := c.len + 1;
    Stats(if less(r.value, c.min) then r.value else c.min,
          if less(c.max, r.value) then r.value else c.max,
          c.mean + (r.number - c.mean) / (newLen as real),
          newLen)
  }

  /** The count and the mean of `Update`. */
  lemma UpdateMean<V(!new)>(c: Stats<V>, r: Reading<V>, less: (V, V) -> bool)
    requires StrictOrder(less)
    ensures Update(c, r, less).len == c.len + 1
    ensures Update(c, r, less).mean == c.mean + (r.number - c.mean) / ((c.len + 1) as real)
  {
  }

  /** One reading into the map: a new city gets `{min: v, max: v, mean: x,
      len: 1}`, a known one is updated, and no other city changes. */
  function Observe<V(!new)>(m: map<string, Stats<V>>, r: Reading<V>, less: (V, V) -> bool): (o: map<string, Stats<V>>)
    requires StrictOrder(less)
    ensures o.Keys == m.Keys + {r.city}
    ensures r.city !in m ==> o[r.city] == Stats(r.value, r.value, r.number, 1)
    ensures r.city in m ==> o[r.city] == Update(m[r.city], r, less)
    ensures forall k | k in m && k != r.city :: o[k] == m[k]
  {
    if r.city in m then m[r.city := Update(m[r.city], r, less)]
    else m[r.city := Stats(r.value, r.value, r.number, 1)]
  }

  /** The map after all readings, in order. */
  function Summarise<V(!new)>(rs: seq<Reading<V>>, less: (V, V) -> bool): map<string, Stats<V>>
    requires StrictOrder(less)
  {
    if rs == [] then map[]
    else Observe(Summarise(rs[..|rs| - 1], less), rs[|rs| - 1], less)
  }

  lemma SummariseSnoc<V(!new)>(rs: seq<Reading<V>>, r: Reading<V>, less: (V, V) -> bool)
    requires StrictOrder(less)
    ensures Summarise(rs + [r], less) == Observe(Summarise(rs, less), r, less)
  {
    assert (rs + [r])[..|rs|] == rs;
  }

  /** The values read for `city`, in order. */
  function ValuesOf<V>(rs: seq<Reading<V>>, city: string): seq<V>
  {
    if rs == [] then []
    else ValuesOf(rs[..|rs| - 1], city) + (if rs[|rs| - 1].city == city then [rs[|rs| - 1].value] else [])
  }

  /** The numbers read for `city`, in order. */
  function NumbersOf<V>(rs: seq<Reading<V>>, city: string): seq<real>
  {
    if rs == [] then []
    else NumbersOf(rs[..|rs| - 1], city) + (if rs[|rs| - 1].city == city then [rs[|rs| - 1].number] else [])
  }

  function Sum(xs: seq<real>): real
  {
    if xs == [] then 0.0 else Sum(xs[..|xs| - 1]) + xs[|xs| - 1]
  }

  /** For every city, the map holds an entry exactly when the city was read,
      and then its `len` is the number of readings, its `min` and `max` are
      among the values read, and no value read is below `min` or above `max`. */
  lemma {:induction false} SummariseCity<V(!new)>(rs: seq<Reading<V>>, less: (V, V) -> bool, city: string)
    requires StrictOrder(less)
    ensures city in Summarise(rs, less) <==> ValuesOf(rs, city) != []
    ensures city in Summarise(rs, less) ==>
      var s := Summarise(rs, less)[city];
      var vs := ValuesOf(rs, city);
      && s.len == |vs| && s.min in vs && s.max in vs
      && (forall v | v in vs :: !less(v, s.min) && !less(s.max, v))
  {
    if rs != [] {
      var front, r := rs[..|rs| - 1], rs[|rs| - 1];
      SummariseCity(front, less, city);
      var before := Summarise(front, less);
      if r.city == city && city in before {
        var s := Summarise(rs, less)[city];
        var old_vs := ValuesOf(front, city);
        assert ValuesOf(rs, city) == old_vs + [r.value];
      }
    }
  }

  /** The incremental update of a mean of `n` numbers summing to `sum` gives the
      mean of those numbers and `x`. */
  lemma MeanStep(sum: real, n: nat, x: real, mean: real, next: real)
    requires n > 0
    requires mean == sum / (n as real)
    requires next == mean + (x - mean) / ((n + 1) as real)
    ensures next == (sum + x) / ((n + 1) as real)
  {
    assert sum == mean * (n as real);
    calc {
      next;
      (mean * ((n + 1) as real) + (x - mean)) / ((n + 1) as real);
      (mean * (n as real) + x) / ((n + 1) as real);
    }
  }

  /** The running mean is the mean of the numbers read for the city. */
  lemma {:induction false} SummariseMean<V(!new)>(rs: seq<Reading<V>>, less: (V, V) -> bool, city: string)
    requires StrictOrder(less)
    requires city in Summarise(rs, less)
    ensures |NumbersOf(rs, city)| == Summarise(rs, less)[city].len > 0
    ensures Summarise(rs, less)[city].mean == Sum(NumbersOf(rs, city)) / (Summarise(rs, less)[city].len as real)
  {
    var front, r := rs[..|rs| - 1], rs[|rs| - 1];
    assert rs == front + [r];
    if city in Summarise(front, less) {
      SummariseMean(front, less, city);
      MeanOfKnownCity(front, r, less, city);
      assert MeanOf(Summarise(rs, less)[city], NumbersOf(rs, city));
    } else {
      SummariseCity(front, less, city);
      assert NumbersOf(front, city) == [] by {
        NumbersFollowValues(front, city);
      }
      assert NumbersOf(rs, city) == [r.number];
    }
  }

  /** An entry's count and mean are those of the numbers `xs`. */
  ghost predicate MeanOf<V>(s: Stats<V>, xs: seq<real>)
  {
    s.len == |xs| > 0 && s.mean == Sum(xs) / (s.len as real)
  }

  /** The induction step of `SummariseMean` for a city read before. */
  lemma MeanOfKnownCity<V(!new)>(front: seq<Reading<V>>, r: Reading<V>, less: (V, V) -> bool, city: string)
    requires StrictOrder(less)
    requires city in Summarise(front, less)
    requires MeanOf(Summarise(front, less)[city], NumbersOf(front, city))
    ensures city in Summarise(front + [r], less)
    ensures MeanOf(Summarise(front + [r], less)[city], NumbersOf(front + [r], city))
  {
    NumbersOfSnoc(front, r, city);
    EntryAfter(front, r, less, city);
    if r.city == city {
      MeanOfSameCity(front, r, less);
    } else {
      assert NumbersOf(front, city) + [] == NumbersOf(front, city);
    }
  }

  /** A reading of a city read before moves its mean to that of its numbers. */
  lemma MeanOfSameCity<V(!new)>(front: seq<Reading<V>>, r: Reading<V>, less: (V, V) -> bool)
    requires StrictOrder(less)
    requires r.city in Summarise(front, less)
    requires MeanOf(Summarise(front, less)[r.city], NumbersOf(front, r.city))
    ensures MeanOf(Update(Summarise(front, less)[r.city], r, less), NumbersOf(front, r.city) + [r.number])
  {
    var c := Summarise(front, less)[r.city];
    UpdateMean(c, r, less);
    MeanOfSnoc(NumbersOf(front, r.city), r.number, c, Update(c, r, less));
  }

  /** One more reading adds its number to its own city's numbers only. */
  lemma NumbersOfSnoc<V>(front: seq<Reading<V>>, r: Reading<V>, city: string)
    ensures NumbersOf(front + [r], city) == NumbersOf(front, city) + (if r.city == city then [r.number] else [])
  {
    assert (front + [r])[..|front|] == front;
  }

  /** One more reading updates its own city's entry only. */
  lemma EntryAfter<V(!new)>(front: seq<Reading<V>>, r: Reading<V>, less: (V, V) -> bool, city: string)
    requires StrictOrder(less) && city in Summarise(front, less)
    ensures city in Summarise(front + [r], less)
    ensures Summarise(front + [r], less)[city] ==
      if r.city == city then Update(Summarise(front, less)[city], r, less) else Summarise(front, less)[city]
  {
    SummariseSnoc(front, r, less);
  }

  /** The mean step, phrased for the entry of a city. */
  lemma MeanOfSnoc<V>(ys: seq<real>, x: real, c: Stats<V>, u: Stats<V>)
    requires MeanOf(c, ys)
    requires u.len == c.len + 1 && u.mean == c.mean + (x - c.mean) / ((c.len + 1) as real)
    ensures MeanOf(u, ys + [x])
  {
    var xs := ys + [x];
    assert Sum(xs) == Sum(ys) + x by {
      assert xs[..|xs| - 1] == ys;
    }
    MeanStep(Sum(ys), c.len, x, c.mean, u.mean);
  }

  /** A city has as many numbers as values. */
  lemma {:induction false} NumbersFollowValues<V>(rs: seq<Reading<V>>, city: string)
    ensures |NumbersOf(rs, city)| == |ValuesOf(rs, city)|
  {
    if rs != [] {
      NumbersFollowValues(rs[..|rs| - 1], city);
    }
  }

  /** What a listing of the summary reports: each listed city was read, and its
      entry counts its readings, holds the least and the greatest of its values
      and the mean of its numbers. */
  lemma ReportedCity<V(!new)>(rs: seq<Reading<V>>, less: (V, V) -> bool, t: Table<Stats<V>>, i: nat)
    requires StrictOrder(less) && Tabulates(t, Summarise(rs, less)) && i < |t|
    ensures var (city, s) := t[i];
      var vs := ValuesOf(rs, city);
      && vs != [] && s.len == |vs|
      && s.min in vs && (forall v | v in vs :: !less(v, s.min))
      && s.max in vs && (forall v | v in vs :: !less(s.max, v))
      && s.mean == Sum(NumbersOf(rs, city)) / (|vs| as real)
  {
    ToMapEntry(t, i);
    SummariseCity(rs, less, t[i].0);
    SummariseMean(rs, less, t[i].0);
  }

  /** Every city read is listed (and, the listing being sorted, listed once). */
  lemma CityReported<V(!new)>(rs: seq<Reading<V>>, less: (V, V) -> bool, t: Table<Stats<V>>, j: nat) returns (i: nat)
    requires StrictOrder(less) && Tabulates(t, Summarise(rs, less)) && j < |rs|
    ensures i < |t| && t[i].0 == rs[j].city
  {
    CityHasValues(rs, j);
    SummariseCity(rs, less, rs[j].city);
    i := ToMapKeyListed(t, rs[j].city);
  }

  /** A reading's value is among the values of its city. */
  lemma {:induction false} CityHasValues<V>(rs: seq<Reading<V>>, j: nat)
    requires j < |rs|
    ensures rs[j].value in ValuesOf(rs, rs[j].city)
  {
    var front := rs[..|rs| - 1];
    if j < |rs| - 1 {
      CityHasValues(front, j);
      assert front[j] == rs[j];
    }
  }

  // ---------------------------------------------------------------------------
  // The two loops.

  /** The hacked loop's update, written with `<` for `min` and `>` for `max`,
      is `Update` with the derived `<`. */
  lemma HackedUpdate(c: Stats<HackFloat>, r: Reading<HackFloat>)
    ensures StrictOrder(Lt)
    ensures Update(c, r, Lt) ==
      Stats(if Lt(r.value, c.min) then r.value else c.min,
            if Gt(r.value, c.max) then r.value else c.max,
            c.mean + (r.number - c.mean) / ((c.len + 1) as real),
            c.len + 1)
  {
    HackLtStrict();
    CmpAntisymmetric(r.value, c.max);
  }

  /** The hacked loop's body after parsing: `get_mut` and update in place, or
      `insert` a new entry. */
  method SightHacked(stats: map<string, Stats<HackFloat>>, city: string, value: HackFloat, x: real)
    returns (next: map<string, Stats<HackFloat>>)
    ensures StrictOrder(Lt) && next == Observe(stats, Reading(city, value, x), Lt)
  {
    HackLtStrict();
    if city in stats {
      var c := stats[city];
      var min, max := c.min, c.max;
      if Lt(value, c.min) {
        min := value;
      }
      if Gt(value, c.max) {
        max := value;
      }
      var newLen := c.len + 1;
      HackedUpdate(c, Reading(city, value, x));
      next := stats[city := Stats(min, max, c.mean + (x - c.mean) / (newLen as real), newLen)];
    } else {
      next := stats[city := Stats(value, value, x, 1)];
    }
  }

  /** The plain loop's body after parsing. */
  method SightFloat(stats: map<string, Stats<real>>, city: string, x: real)
    returns (next: map<string, Stats<real>>)
    ensures StrictOrder(RealLess) && next == Observe(stats, Reading(city, x, x), RealLess)
  {
    RealLessStrict();
    if city in stats {
      var c := stats[city];
      var newLen := c.len + 1;
      next := stats[city := Stats(F64Min(c.min, x), F64Max(c.max, x), c.mean + (x - c.mean) / (newLen as real), newLen)];
    } else {
      next := stats[city := Stats(x, x, x, 1)];
    }
  }

  /** `single_threaded_hacked_floats` over the lines of the file. */
  method AggregateHacked(lines: seq<string>, parseNumber: string -> Option<real>)
    returns (result: Result<Table<Stats<HackFloat>>, Fault>)
    ensures ReadAll(lines, HackedReader(parseNumber)).Failure? ==>
              result == Failure(ReadAll(lines, HackedReader(parseNumber)).error)
    ensures ReadAll(lines, HackedReader(parseNumber)).Success? ==>
              StrictOrder(Lt) &&
              result.Success? && Tabulates(result.value, Summarise(ReadAll(lines, HackedReader(parseNumber)).value, Lt))
  {
    HackLtStrict();
    var read := HackedReader(parseNumber);
    var stats: map<string, Stats<HackFloat>> := map[];
    ghost var rs: seq<Reading<HackFloat>> := [];
    for i := 0 to |lines|
      invariant ReadAll(lines[..i], read) == Success(rs)
      invariant stats == Summarise(rs, Lt)
    {
      ReadAllStep(lines, i, read);
      var fields := SplitFields(lines[i]);
      if fields.None? {
        return Failure(MalformedRecord);
      }
      var (city, temp) := fields.value;
      var hacked := FromStr(temp);
      if hacked.None? {
        return Failure(InvalidHackFloat);
      }
      var number := parseNumber(temp);
      if number.None? {
        return Failure(InvalidNumber);
      }
      var value, x := hacked.value, number.value;
      ghost var r := Reading(city, value, x);
      stats := SightHacked(stats, city, value, x);
      SummariseSnoc(rs, r, Lt);
      rs := rs + [r];
    }
    assert lines[..|lines|] == lines;
    var table := SortByKey(stats);
    return Success(table);
  }

  /** `single_threaded` over the lines of the file. */
  method AggregateFloat(lines: seq<string>, parseNumber: string -> Option<real>)
    returns (result: Result<Table<Stats<real>>, Fault>)
    ensures ReadAll(lines, FloatReader(parseNumber)).Failure? ==>
              result == Failure(ReadAll(lines, FloatReader(parseNumber)).error)
    ensures ReadAll(lines, FloatReader(parseNumber)).Success? ==>
              StrictOrder(RealLess) &&
              result.Success? && Tabulates(result.value, Summarise(ReadAll(lines, FloatReader(parseNumber)).value, RealLess))
  {
    RealLessStrict();
    var read := FloatReader(parseNumber);
    var stats: map<string, Stats<real>> := map[];
    ghost var rs: seq<Reading<real>> := [];
    for i := 0 to |lines|
      invariant ReadAll(lines[..i], read) == Success(rs)
      invariant stats == Summarise(rs, RealLess)
    {
      ReadAllStep(lines, i, read);
      var fields := SplitFields(lines[i]);
      if fields.None? {
        return Failure(MalformedRecord);
      }
      var (city, temp) := fields.value;
      var number := parseNumber(temp);
      if number.None? {
        return Failure(InvalidNumber);
      }
      var x := number.value;
      ghost var r := Reading(city, x, x);
      stats := SightFloat(stats, city, x);
      SummariseSnoc(rs, r, RealLess);
      rs := rs + [r];
    }
    assert lines[..|lines|] == lines;
    var table := SortByKey(stats);
    return Success(table);
  }
}

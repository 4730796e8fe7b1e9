/** `clean_code`, which every page applies to the table it reads. The three
    pages hold textually identical copies (pages/1_visao_empresa.py:76-124,
    pages/2_visao_entregadores.py:34-82, pages/3_visao_restaurantes.py:88-136),
    so it is modelled once.

    The steps run over the whole table one after the other, as pandas runs
    them column by column: the five row gates, the two integer columns, the
    trimming of seven text columns, the date column, and the time column.
    When a step fails on some row, pandas raises and there is no table at
    all; since each step covers every row before the next one starts, the
    error reported is that of the first failing row in the first step that
    fails. `Clean` states this; `CleanCode` is the step-by-step method, and
    `CleanRow` is the row-at-a-time reading that `CleanIsRowByRow` relates
    to it. */
module Cleaning {
  import opened Wrappers
  import Text
  import Calendar
  import Series
  import opened Orders

  /** The exception `clean_code` raises, with the text that caused it. */
  datatype CleanError =
    | AgeNotInteger(text: string)                 // astype(int) of Delivery_person_Age
    | MultipleDeliveriesNotInteger(text: string)  // astype(int) of multiple_deliveries
    | DateNotMatched(text: string)                // to_datetime: layout or day not valid
    | DateOutOfBounds(text: string)               // to_datetime: outside datetime64[ns]
    | TimeLabelMissing(text: string)              // split('(min) ')[1]: IndexError
    | TimeNotInteger(text: string)                // astype(int) of the split piece

  // ---------------------------------------------------------------------------
  // Step 1: the row gates
  // ---------------------------------------------------------------------------

  /** The missing-value text as the age and multiple-deliveries columns hold
      it, with a trailing space. */
  const PaddedMissing: string := "NaN "
  /** The missing-value text the traffic, city and festival gates compare
      with, without a space. */
  const Missing: string := "NaN"

  predicate AgePresent(r: RawOrder) { r.age != PaddedMissing }
  predicate MultipleDeliveriesPresent(r: RawOrder) { r.multipleDeliveries != PaddedMissing }
  predicate TrafficPresent(r: RawOrder) { r.traffic != Missing }
  predicate CityPresent(r: RawOrder) { r.city != Missing }
  predicate FestivalPresent(r: RawOrder) { r.festival != Missing }

  /** A raw row that none of the five gates drops. The comparison is exact
      and on the untrimmed text. */
  predicate PassesGates(r: RawOrder) {
    AgePresent(r) && MultipleDeliveriesPresent(r) && TrafficPresent(r) && CityPresent(r) && FestivalPresent(r)
  }

  /** The five selections, in the order the source applies them. */
  function Gate(raw: seq<RawOrder>): seq<RawOrder>
  {
    var byAge := Series.Filter(raw, AgePresent);
    var byMultiple := Series.Filter(byAge, MultipleDeliveriesPresent);
    var byTraffic := Series.Filter(byMultiple, TrafficPresent);
    var byCity := Series.Filter(byTraffic, CityPresent);
    Series.Filter(byCity, FestivalPresent)
  }

  // Conjunctions of the gates, one per step, so that the five selections can
  // be merged into one.
  predicate FirstTwoGates(r: RawOrder) { AgePresent(r) && MultipleDeliveriesPresent(r) }
  predicate FirstThreeGates(r: RawOrder) { FirstTwoGates(r) && TrafficPresent(r) }
  predicate FirstFourGates(r: RawOrder) { FirstThreeGates(r) && CityPresent(r) }

  /** The five successive selections select the rows that pass all five
      gates. */
  lemma {:induction false} GateIsOneSelection(raw: seq<RawOrder>)
    ensures Gate(raw) == Series.Filter(raw, PassesGates)
  {
    Series.FilterTwice(raw, AgePresent, MultipleDeliveriesPresent, FirstTwoGates);
    var s2 := Series.Filter(raw, FirstTwoGates);
    Series.FilterTwice(raw, FirstTwoGates, TrafficPresent, FirstThreeGates);
    Series.FilterTwice(raw, FirstThreeGates, CityPresent, FirstFourGates);
    Series.FilterTwice(raw, FirstFourGates, FestivalPresent, PassesGates);
  }

  /** Gating keeps exactly the rows without a sentinel, each as often as it
      occurs in the raw table, in their original order; every other row is
      dropped. */
  lemma {:induction false} GateKeepsExactlyPassingRows(raw: seq<RawOrder>)
    ensures forall i :: 0 <= i < |Gate(raw)| ==> PassesGates(Gate(raw)[i])
    ensures forall r :: multiset(Gate(raw))[r] == if PassesGates(r) then multiset(raw)[r] else 0
    ensures |Gate(raw)| == |Series.KeptPositions(raw, PassesGates)|
    ensures forall k :: 0 <= k < |Gate(raw)| ==> Gate(raw)[k] == raw[Series.KeptPositions(raw, PassesGates)[k]]
  {
    GateIsOneSelection(raw);
    Series.FilterCounts(raw, PassesGates);
    Series.FilterAtKeptPositions(raw, PassesGates);
  }

  // ---------------------------------------------------------------------------
  // Steps 2 to 5: the cells
  // ---------------------------------------------------------------------------

  function AgeCell(r: RawOrder): Result<int, CleanError> {
    match Text.ToInt64(r.age)
    case Some(n) => Ok(n)
    case None => Err(AgeNotInteger(r.age))
  }

  function MultipleDeliveriesCell(r: RawOrder): Result<int, CleanError> {
    match Text.ToInt64(r.multipleDeliveries)
    case Some(n) => Ok(n)
    case None => Err(MultipleDeliveriesNotInteger(r.multipleDeliveries))
  }

  /** `pd.to_datetime(text, format='%d-%m-%Y')` for one cell. */
  function DateCell(r: RawOrder): Result<Option<Calendar.Date>, CleanError> {
    DateOfText(r.orderDate)
  }

  function DateOfText(text: string): Result<Option<Calendar.Date>, CleanError> {
    if Calendar.IsNaTText(text) then Ok(None)
    else
      match Calendar.ParseDayMonthYear(text)
      case None => Err(DateNotMatched(text))
      case Some(d) =>
        if Calendar.InTimestampRange(d) then Ok(Some(d)) else Err(DateOutOfBounds(text))
  }

  /** The delimiter that precedes the minutes in `Time_taken(min)`. */
  const MinutesLabel: string := "(min) "

  /** `x.split('(min) ')[1]` for one cell. */
  function TimePieceCell(r: RawOrder): Result<string, CleanError> {
    PieceOfText(r.timeTaken)
  }

  function PieceOfText(text: string): Result<string, CleanError> {
    match Text.SecondPiece(text, MinutesLabel)
    case Some(p) => Ok(p)
    case None => Err(TimeLabelMissing(text))
  }

  /** `astype(int)` of the piece left by the split. */
  function TimeCell(piece: string): Result<int, CleanError> {
    match Text.ToInt64(piece)
    case Some(n) => Ok(n)
    case None => Err(TimeNotInteger(piece))
  }

  /** The seven text columns that are stripped. */
  datatype TextColumn =
    IdColumn | DeliveryPersonIdColumn | TrafficColumn | TypeOfOrderColumn
    | TypeOfVehicleColumn | FestivalColumn | CityColumn

  /** `r` with one text column stripped. */
  function StripField(r: RawOrder, c: TextColumn): RawOrder {
    match c
    case IdColumn => r.(id := Text.Strip(r.id))
    case DeliveryPersonIdColumn => r.(deliveryPersonId := Text.Strip(r.deliveryPersonId))
    case TrafficColumn => r.(traffic := Text.Strip(r.traffic))
    case TypeOfOrderColumn => r.(typeOfOrder := Text.Strip(r.typeOfOrder))
    case TypeOfVehicleColumn => r.(typeOfVehicle := Text.Strip(r.typeOfVehicle))
    case FestivalColumn => r.(festival := Text.Strip(r.festival))
    case CityColumn => r.(city := Text.Strip(r.city))
  }

  /** `r` with all seven text columns stripped. */
  function StripRow(r: RawOrder): RawOrder {
    r.(id := Text.Strip(r.id), deliveryPersonId := Text.Strip(r.deliveryPersonId),
       traffic := Text.Strip(r.traffic), typeOfOrder := Text.Strip(r.typeOfOrder),
       typeOfVehicle := Text.Strip(r.typeOfVehicle), festival := Text.Strip(r.festival),
       city := Text.Strip(r.city))
  }

  function StripTable(g: seq<RawOrder>): (t: seq<RawOrder>)
    ensures |t| == |g|
  {
    seq(|g|, i requires 0 <= i < |g| => StripRow(g[i]))
  }

  /** The cleaned row built from the stripped raw row and the converted
      cells. */
  function Assemble(t: RawOrder, age: int, multiple: int, date: Option<Calendar.Date>, time: int): Order {
    Order(t.id, t.deliveryPersonId, age, t.ratings, date, t.weather, t.traffic,
          t.vehicleCondition, t.typeOfOrder, t.typeOfVehicle, multiple, t.festival,
          t.city, time)
  }

  // ---------------------------------------------------------------------------
  // The whole clean, and its row-at-a-time reading
  // ---------------------------------------------------------------------------

  /** `clean_code(df)`: the cleaned table, or the error of the first failing
      row in the first step that fails. */
  function Clean(raw: seq<RawOrder>): Result<seq<Order>, CleanError>
  {
    CleanGated(Gate(raw))
  }

  /** Steps 2 to 5 on the gated table `g`. */
  function CleanGated(g: seq<RawOrder>): Result<seq<Order>, CleanError>
  {
    match Series.Convert(g, AgeCell)
    case Err(e) => Err(e)
    case Ok(ages) =>
      match Series.Convert(g, MultipleDeliveriesCell)
      case Err(e) => Err(e)
      case Ok(multiples) =>
        var t := StripTable(g);
        match Series.Convert(t, DateCell)
        case Err(e) => Err(e)
        case Ok(dates) =>
          match Series.Convert(t, TimePieceCell)
          case Err(e) => Err(e)
          case Ok(pieces) =>
            match Series.Convert(pieces, TimeCell)
            case Err(e) => Err(e)
            case Ok(times) =>
              Ok(seq(|t|, i requires 0 <= i < |t| => Assemble(t[i], ages[i], multiples[i], dates[i], times[i])))
  }

  /** One gated row taken through steps 2 to 5 on its own. A cleaned row has
      its seven text columns trimmed. */
  function CleanRow(r: RawOrder): (o: Result<Order, CleanError>)
    ensures o.Ok? ==> Text.Trimmed(o.value.id) && Text.Trimmed(o.value.deliveryPersonId)
                      && Text.Trimmed(o.value.traffic) && Text.Trimmed(o.value.typeOfOrder)
                      && Text.Trimmed(o.value.typeOfVehicle) && Text.Trimmed(o.value.festival)
                      && Text.Trimmed(o.value.city)
  {
    match AgeCell(r)
    case Err(e) => Err(e)
    case Ok(age) =>
      match MultipleDeliveriesCell(r)
      case Err(e) => Err(e)
      case Ok(multiple) =>
        var t := StripRow(r);
        match DateCell(t)
        case Err(e) => Err(e)
        case Ok(date) =>
          match TimePieceCell(t)
          case Err(e) => Err(e)
          case Ok(piece) =>
            match TimeCell(piece)
            case Err(e) => Err(e)
            case Ok(time) => Ok(Assemble(t, age, multiple, date, time))
  }

  /** The column-by-column clean is the row-by-row one: it succeeds exactly
      when every gated row cleans, and then its rows are those rows cleaned,
      in order and with the same count; when it fails, the error is that of
      one gated row, and no partial table is produced. */
  lemma {:induction false} CleanIsRowByRow(raw: seq<RawOrder>)
    ensures Clean(raw).Ok? <==> forall i :: 0 <= i < |Gate(raw)| ==> CleanRow(Gate(raw)[i]).Ok?
    ensures Clean(raw).Ok? ==>
              |Clean(raw).value| == |Gate(raw)|
              && forall i :: 0 <= i < |Gate(raw)| ==> CleanRow(Gate(raw)[i]) == Ok(Clean(raw).value[i])
    ensures Clean(raw).Err? ==>
              exists i :: 0 <= i < |Gate(raw)| && CleanRow(Gate(raw)[i]) == Err(Clean(raw).error)
  {
    GatedErrIsRowErr(Gate(raw));
    GatedOkIsRows(Gate(raw));
  }

  lemma {:induction false} GatedErrIsRowErr(g: seq<RawOrder>)
    ensures CleanGated(g).Err? ==> exists i :: 0 <= i < |g| && CleanRow(g[i]) == Err(CleanGated(g).error)
  {
    var t := StripTable(g);
    var ages := Series.Convert(g, AgeCell);
    var multiples := Series.Convert(g, MultipleDeliveriesCell);
    var dates := Series.Convert(t, DateCell);
    var pieces := Series.Convert(t, TimePieceCell);
    if ages.Err? {
      var i :| 0 <= i < |g| && AgeCell(g[i]) == Err(ages.error);
      assert CleanRow(g[i]) == Err(ages.error);
    } else if multiples.Err? {
      var i :| 0 <= i < |g| && MultipleDeliveriesCell(g[i]) == Err(multiples.error);
      assert AgeCell(g[i]).Ok?;
      assert CleanRow(g[i]) == Err(multiples.error);
    } else if dates.Err? {
      var i :| 0 <= i < |t| && DateCell(t[i]) == Err(dates.error);
      assert AgeCell(g[i]).Ok? && MultipleDeliveriesCell(g[i]).Ok?;
      assert CleanRow(g[i]) == Err(dates.error);
    } else if pieces.Err? {
      var i :| 0 <= i < |t| && TimePieceCell(t[i]) == Err(pieces.error);
      assert AgeCell(g[i]).Ok? && MultipleDeliveriesCell(g[i]).Ok? && DateCell(t[i]).Ok?;
      assert CleanRow(g[i]) == Err(pieces.error);
    } else {
      var times := Series.Convert(pieces.value, TimeCell);
      if times.Err? {
        var i :| 0 <= i < |pieces.value| && TimeCell(pieces.value[i]) == Err(times.error);
        assert AgeCell(g[i]).Ok? && MultipleDeliveriesCell(g[i]).Ok? && DateCell(t[i]).Ok?;
        assert TimePieceCell(t[i]) == Ok(pieces.value[i]);
        assert CleanRow(g[i]) == Err(times.error);
      }
    }
  }

  lemma {:induction false} GatedOkIsRows(g: seq<RawOrder>)
    ensures CleanGated(g).Ok? ==>
              |CleanGated(g).value| == |g| && forall i :: 0 <= i < |g| ==> CleanRow(g[i]) == Ok(CleanGated(g).value[i])
  {
    var t := StripTable(g);
    if CleanGated(g).Ok? {
      var pieces := Series.Convert(t, TimePieceCell);
      forall i | 0 <= i < |g|
        ensures CleanRow(g[i]) == Ok(CleanGated(g).value[i])
      {
        assert TimePieceCell(t[i]) == Ok(pieces.value[i]);
      }
    }
  }

  // ---------------------------------------------------------------------------
  // Properties of the cleaned table
  // ---------------------------------------------------------------------------

  /** Trimming any of the seven text columns of `o` again changes nothing. */
  predicate StripChangesNothing(o: Order) {
    && Text.Strip(o.id) == o.id && Text.Strip(o.deliveryPersonId) == o.deliveryPersonId
    && Text.Strip(o.traffic) == o.traffic && Text.Strip(o.typeOfOrder) == o.typeOfOrder
    && Text.Strip(o.typeOfVehicle) == o.typeOfVehicle && Text.Strip(o.festival) == o.festival
    && Text.Strip(o.city) == o.city
  }

  lemma {:induction false} CleanedRowIsStripped(r: RawOrder, o: Order)
    requires CleanRow(r) == Ok(o)
    ensures StripChangesNothing(o)
  {
    Text.StripTrimmed(o.id);
    Text.StripTrimmed(o.deliveryPersonId);
    Text.StripTrimmed(o.traffic);
    Text.StripTrimmed(o.typeOfOrder);
    Text.StripTrimmed(o.typeOfVehicle);
    Text.StripTrimmed(o.festival);
    Text.StripTrimmed(o.city);
  }

  /** Every row of the cleaned table is the clean of a raw row without a
      sentinel, and stripping its text columns again changes nothing. */
  lemma {:induction false} CleanedRowsAreGatedAndTrimmed(raw: seq<RawOrder>, rows: seq<Order>)
    requires Clean(raw) == Ok(rows)
    ensures forall o :: o in rows ==> exists r :: r in raw && PassesGates(r) && CleanRow(r) == Ok(o)
    ensures forall o :: o in rows ==> StripChangesNothing(o)
  {
    var g := Gate(raw);
    CleanIsRowByRow(raw);
    GateKeepsExactlyPassingRows(raw);
    forall o | o in rows
      ensures (exists r :: r in raw && PassesGates(r) && CleanRow(r) == Ok(o)) && StripChangesNothing(o)
    {
      var i :| 0 <= i < |rows| && rows[i] == o;
      assert g[i] in multiset(g);
      CleanedRowIsStripped(g[i], o);
    }
  }

  /** The cleaned table holds only days of the calendar. */
  lemma {:induction false} CleanedDatesValid(raw: seq<RawOrder>, rows: seq<Order>)
    requires Clean(raw) == Ok(rows)
    ensures DatesValid(rows)
  {
    CleanIsRowByRow(raw);
    forall i | 0 <= i < |rows| && rows[i].orderDate.Some?
      ensures Calendar.IsValid(rows[i].orderDate.value)
    {
      CleanedRowDate(Gate(raw)[i], rows[i]);
    }
  }

  /** The numbers of a cleaned row: the integers `int()` reads from the age
      and multiple-deliveries text, and as time the integer read from the
      piece of text after the first `"(min) "`. */
  lemma {:induction false} CleanedRowNumbers(r: RawOrder, o: Order)
    requires CleanRow(r) == Ok(o)
    ensures Text.ParseInt(r.age) == Some(o.age)
    ensures Text.ParseInt(r.multipleDeliveries) == Some(o.multipleDeliveries)
    ensures Text.SecondPiece(r.timeTaken, MinutesLabel).Some?
    ensures Text.ParseInt(Text.SecondPiece(r.timeTaken, MinutesLabel).value) == Some(o.timeTaken)
    ensures Text.Int64Min <= o.age <= Text.Int64Max && Text.Int64Min <= o.timeTaken <= Text.Int64Max
  {
    var t := StripRow(r);
    assert t.orderDate == r.orderDate && t.timeTaken == r.timeTaken;
    var age := AgeCell(r);
    var multiple := MultipleDeliveriesCell(r);
    var date := DateCell(t);
    var piece := TimePieceCell(t);
    assert age.Ok? && multiple.Ok? && date.Ok? && piece.Ok?;
    var time := TimeCell(piece.value);
    assert o == Assemble(t, age.value, multiple.value, date.value, time.value);
  }

  /** The date of a cleaned row is the one its text spells, inside the
      timestamp range, and it is absent only for a `NaT` text. */
  lemma {:induction false} CleanedRowDate(r: RawOrder, o: Order)
    requires CleanRow(r) == Ok(o)
    ensures o.orderDate.Some? ==>
              Calendar.ParseDayMonthYear(r.orderDate) == o.orderDate && Calendar.InTimestampRange(o.orderDate.value)
    ensures o.orderDate.None? <==> Calendar.IsNaTText(r.orderDate)
  {
    var t := StripRow(r);
    assert t.orderDate == r.orderDate && t.timeTaken == r.timeTaken;
    var age := AgeCell(r);
    var multiple := MultipleDeliveriesCell(r);
    var date := DateCell(t);
    var piece := TimePieceCell(t);
    assert age.Ok? && multiple.Ok? && date.Ok? && piece.Ok?;
    var time := TimeCell(piece.value);
    assert o == Assemble(t, age.value, multiple.value, date.value, time.value);
  }

  /** The text columns of a cleaned row are the raw ones, stripped where the
      source strips them and untouched elsewhere. */
  lemma {:induction false} CleanedRowText(r: RawOrder, o: Order)
    requires CleanRow(r) == Ok(o)
    ensures o.id == Text.Strip(r.id) && o.deliveryPersonId == Text.Strip(r.deliveryPersonId)
    ensures o.traffic == Text.Strip(r.traffic) && o.city == Text.Strip(r.city)
    ensures o.festival == Text.Strip(r.festival) && o.typeOfOrder == Text.Strip(r.typeOfOrder)
    ensures o.typeOfVehicle == Text.Strip(r.typeOfVehicle)
    ensures o.weather == r.weather && o.vehicleCondition == r.vehicleCondition && o.ratings == r.ratings
  {
    var t := StripRow(r);
    assert t.orderDate == r.orderDate && t.timeTaken == r.timeTaken;
    var age := AgeCell(r);
    var multiple := MultipleDeliveriesCell(r);
    var date := DateCell(t);
    var piece := TimePieceCell(t);
    assert age.Ok? && multiple.Ok? && date.Ok? && piece.Ok?;
    var time := TimeCell(piece.value);
    assert o == Assemble(t, age.value, multiple.value, date.value, time.value);
  }

  /** A time text without the `"(min) "` label fails the clean once the
      earlier steps pass. */
  lemma {:induction false} MissingLabelFails(r: RawOrder)
    requires AgeCell(r).Ok? && MultipleDeliveriesCell(r).Ok? && DateCell(r).Ok?
    requires Text.Find(r.timeTaken, MinutesLabel).None?
    ensures CleanRow(r) == Err(TimeLabelMissing(r.timeTaken))
  {
    var t := StripRow(r);
    assert t.orderDate == r.orderDate && t.timeTaken == r.timeTaken;
    assert PieceOfText(r.timeTaken) == Err(TimeLabelMissing(r.timeTaken));
  }

  /** Digits and whitespace hold no `"(min) "`. */
  lemma {:induction false} NoLabelIn(rest: string)
    requires forall i :: 0 <= i < |rest| ==> Text.IsDigit(rest[i]) || Text.IsSpace(rest[i])
    ensures Text.Find(rest, MinutesLabel).None?
  {
    forall j | 0 <= j <= |rest| ensures !Text.OccursAt(rest, MinutesLabel, j) {
      if j + |MinutesLabel| <= |rest| {
        assert rest[j..j + |MinutesLabel|][0] == rest[j];
      }
    }
  }

  /** The minutes are read from a label followed by digits and whitespace,
      such as `"(min) 33 "`. */
  lemma {:induction false} TimeAfterLabel(n: nat, b: string)
    requires Text.AllSpace(b) && n <= Text.Int64Max
    ensures TimeCell(Text.SecondPiece(MinutesLabel + Text.NatText(n) + b, MinutesLabel).value) == Ok(n)
  {
    var rest := Text.NatText(n) + b;
    assert MinutesLabel + Text.NatText(n) + b == MinutesLabel + rest;
    DigitsThenSpace(Text.NatText(n), b);
    NoLabelIn(rest);
    SecondPieceAfterLabel(rest);
    TimeOfPiece(n, b);
  }

  /** Digits followed by whitespace convert to their value. */
  lemma {:induction false} TimeOfPiece(n: nat, b: string)
    requires Text.AllSpace(b) && n <= Text.Int64Max
    ensures TimeCell(Text.NatText(n) + b) == Ok(n)
  {
    var piece := Text.NatText(n) + b;
    Text.NatTextParses(n);
    Text.ParseIntTrailing(Text.NatText(n), b);
    assert Text.ToInt64(piece) == Some(n as int);
  }

  lemma {:induction false} DigitsThenSpace(digits: string, b: string)
    requires forall i :: 0 <= i < |digits| ==> Text.IsDigit(digits[i])
    requires Text.AllSpace(b)
    ensures forall i :: 0 <= i < |digits + b| ==> Text.IsDigit((digits + b)[i]) || Text.IsSpace((digits + b)[i])
  {
  }

  /** Text that starts with the label and holds it nowhere else splits into
      the label and the rest. */
  lemma {:induction false} SecondPieceAfterLabel(rest: string)
    requires Text.Find(rest, MinutesLabel).None?
    ensures Text.SecondPiece(MinutesLabel + rest, MinutesLabel) == Some(rest)
  {
    var s := MinutesLabel + rest;
    assert s[..|MinutesLabel|] == MinutesLabel;
    assert Text.Find(s, MinutesLabel) == Some(0);
    Text.SecondPieceBetween(s, MinutesLabel);
    var p := Text.SecondPiece(s, MinutesLabel).value;
    assert s[|MinutesLabel|..|MinutesLabel| + |p|] == p;
    assert p == rest;
  }

  /** The example of the data: `"(min) 33 "` gives 33. */
  lemma {:induction false} TimeExample()
    ensures TimeCell(Text.SecondPiece("(min) 33 ", MinutesLabel).value) == Ok(33)
  {
    TimeAfterLabel(33, " ");
    NatText33();
  }

  lemma {:induction false} NatText33()
    ensures MinutesLabel + Text.NatText(33) + " " == "(min) 33 "
  {
    assert Text.NatText(33) == "33";
  }

  // ---------------------------------------------------------------------------
  // The traffic sentinel with a trailing space
  // ---------------------------------------------------------------------------

  /** A row of the delivery file whose traffic cell is the missing-value text
      with a trailing space, as the age and multiple-deliveries cells hold it. */
  const PaddedTrafficRow: RawOrder :=
    RawOrder("0x4607", "INDORES13DEL02", "37", "4.9", "19-03-2022", "conditions Sunny",
             "NaN ", 2, "Snack", "motorcycle", "0", "No", "Urban", "(min) 24")

  lemma {:induction false} ReadsAsNat(s: string, n: nat)
    requires s == Text.NatText(n) && n <= Text.Int64Max
    ensures Text.ToInt64(s) == Some(n as int)
  {
    Text.NatTextParses(n);
  }

  lemma {:induction false} PaddedTrafficNumbers()
    ensures AgeCell(PaddedTrafficRow) == Ok(37) && MultipleDeliveriesCell(PaddedTrafficRow) == Ok(0)
  {
    assert Text.NatText(37) == "37" && Text.NatText(0) == "0";
    ReadsAsNat("37", 37);
    ReadsAsNat("0", 0);
  }

  lemma {:induction false} PaddedTrafficDate()
    ensures DateCell(StripRow(PaddedTrafficRow)) == Ok(Some(Calendar.Date(2022, 3, 19)))
  {
    var t := StripRow(PaddedTrafficRow);
    assert t.orderDate == "19-03-2022";
    ExampleDateCell(t);
  }

  lemma {:induction false} ExampleDateCell(r: RawOrder)
    requires r.orderDate == "19-03-2022"
    ensures DateCell(r) == Ok(Some(Calendar.Date(2022, 3, 19)))
  {
    ExampleDateIsNotNaT(r.orderDate);
    Calendar.ParseExampleDate();
    ExampleDateInRange(Calendar.Date(2022, 3, 19));
  }

  lemma {:induction false} ExampleDateIsNotNaT(text: string)
    requires text == "19-03-2022"
    ensures !Calendar.IsNaTText(text)
  {
    assert text[0] == '1';
  }

  lemma {:induction false} ExampleDateInRange(d: Calendar.Date)
    requires d == Calendar.Date(2022, 3, 19)
    ensures Calendar.InTimestampRange(d)
  {
  }

  lemma {:induction false} LabelledTimeCells(r: RawOrder, n: nat)
    requires r.timeTaken == MinutesLabel + Text.NatText(n) && n <= Text.Int64Max
    ensures TimePieceCell(r).Ok? && TimeCell(TimePieceCell(r).value) == Ok(n)
  {
    TimeAfterLabel(n, "");
    assert MinutesLabel + Text.NatText(n) + "" == r.timeTaken;
  }

  lemma {:induction false} PaddedTrafficTime()
    ensures TimePieceCell(StripRow(PaddedTrafficRow)).Ok?
    ensures TimeCell(TimePieceCell(StripRow(PaddedTrafficRow)).value) == Ok(24)
  {
    var t := StripRow(PaddedTrafficRow);
    assert t.timeTaken == "(min) 24";
    TimeCells24(t);
  }

  lemma {:induction false} TimeCells24(r: RawOrder)
    requires r.timeTaken == "(min) 24"
    ensures TimePieceCell(r).Ok? && TimeCell(TimePieceCell(r).value) == Ok(24)
  {
    assert Text.NatText(24) == "24";
    assert r.timeTaken == MinutesLabel + Text.NatText(24);
    LabelledTimeCells(r, 24);
  }

  /** The rows a one-row table keeps are that row, when it passes the gates. */
  lemma {:induction false} GateOneRow(r: RawOrder)
    requires PassesGates(r)
    ensures Gate([r]) == [r]
  {
    GateIsOneSelection([r]);
    assert [r][..0] == [];
  }

  /** A single row that passes the gates and cleans gives a one-row table. */
  lemma {:induction false} CleanOneRow(r: RawOrder)
    requires PassesGates(r) && CleanRow(r).Ok?
    ensures Clean([r]) == Ok([CleanRow(r).value])
  {
    GateOneRow(r);
    GatedSingle([r]);
  }

  lemma {:induction false} GatedSingle(g: seq<RawOrder>)
    requires |g| == 1 && CleanRow(g[0]).Ok?
    ensures CleanGated(g) == Ok([CleanRow(g[0]).value])
  {
    GatedErrIsRowErr(g);
    GatedOkIsRows(g);
    OneRowTable(CleanGated(g), CleanRow(g[0]).value);
  }

  lemma {:induction false} OneRowTable(res: Result<seq<Order>, CleanError>, o: Order)
    requires res.Ok? && |res.value| == 1 && res.value[0] == o
    ensures res == Ok([o])
  {
    assert res.value == [o];
  }

  lemma {:induction false} CleanRowFromCells(r: RawOrder)
    requires AgeCell(r).Ok? && MultipleDeliveriesCell(r).Ok?
    requires DateCell(StripRow(r)).Ok? && TimePieceCell(StripRow(r)).Ok?
    requires TimeCell(TimePieceCell(StripRow(r)).value).Ok?
    ensures CleanRow(r).Ok? && CleanRow(r).value.traffic == Text.Strip(r.traffic)
  {
  }

  lemma {:induction false} PaddedTrafficRowCleans()
    ensures CleanRow(PaddedTrafficRow).Ok?
    ensures CleanRow(PaddedTrafficRow).value.traffic == Text.Strip(PaddedTrafficRow.traffic)
  {
    PaddedTrafficNumbers();
    PaddedTrafficDate();
    PaddedTrafficTime();
    CleanRowFromCells(PaddedTrafficRow);
  }

  lemma {:induction false} PaddedMissingStrips()
    ensures Text.Strip(PaddedMissing) == Missing
  {
    Text.StripPadded("", Missing, " ");
    assert "" + Missing + " " == PaddedMissing;
  }

  /** The traffic gate compares with the text without the space, so the row
      passes it, and stripping then turns its traffic into the missing-value
      text itself: the cleaned table still holds a missing traffic value. */
  lemma {:induction false} PaddedTrafficSentinelSurvives()
    ensures PassesGates(PaddedTrafficRow) && PaddedTrafficRow.traffic == PaddedMissing
    ensures CleanRow(PaddedTrafficRow).Ok? && CleanRow(PaddedTrafficRow).value.traffic == Missing
    ensures Clean([PaddedTrafficRow]) == Ok([CleanRow(PaddedTrafficRow).value])
  {
    PaddedTrafficRowCleans();
    PaddedMissingStrips();
    CleanOneRow(PaddedTrafficRow);
  }

  // ---------------------------------------------------------------------------
  // The method
  // ---------------------------------------------------------------------------

  /** One of the seven `df1.loc[:, col] = df1.loc[:, col].str.strip()`
      assignments: the column is replaced in place, row by row. */
  method StripColumn(df: seq<RawOrder>, c: TextColumn) returns (out: seq<RawOrder>)
    ensures |out| == |df| && forall i :: 0 <= i < |df| ==> out[i] == StripField(df[i], c)
  {
    out := Series.UpdateRows(df, (r: RawOrder) => StripField(r, c));
  }

  /** Step 3: the seven column assignments, in the source's order. */
  method StripTextColumns(df: seq<RawOrder>) returns (out: seq<RawOrder>)
    ensures out == StripTable(df)
  {
    out := StripColumn(df, IdColumn);
    out := StripColumn(out, DeliveryPersonIdColumn);
    out := StripColumn(out, TrafficColumn);
    out := StripColumn(out, TypeOfOrderColumn);
    out := StripColumn(out, TypeOfVehicleColumn);
    out := StripColumn(out, FestivalColumn);
    out := StripColumn(out, CityColumn);
  }

  /** `clean_code(df1)` step by step: the table is rebound through the five
      selections, then each column is converted or stripped in turn; the
      first failure ends the clean with its error. */
  method CleanCode(raw: seq<RawOrder>) returns (result: Result<seq<Order>, CleanError>)
    ensures result == Clean(raw)
  {
    // 1. rows with the missing-value text
    var df := Series.SelectRows(raw, AgePresent);
    df := Series.SelectRows(df, MultipleDeliveriesPresent);
    df := Series.SelectRows(df, TrafficPresent);
    df := Series.SelectRows(df, CityPresent);
    df := Series.SelectRows(df, FestivalPresent);
    assert df == Gate(raw);
    result := CleanGatedTable(df);
  }

  /** Steps 2 to 5 of `clean_code` on the gated table, one column at a time. */
  method CleanGatedTable(df0: seq<RawOrder>) returns (result: Result<seq<Order>, CleanError>)
    ensures result == CleanGated(df0)
  {
    var df := df0;

    // 2. integer columns (the ratings column stays text)
    var ages := Series.ConvertColumn(df, AgeCell);
    if ages.Err? { return Err(ages.error); }
    var multiples := Series.ConvertColumn(df, MultipleDeliveriesCell);
    if multiples.Err? { return Err(multiples.error); }

    // 3. strip the text columns
    df := StripTextColumns(df);

    // 4. dates
    var dates := Series.ConvertColumn(df, DateCell);
    if dates.Err? { return Err(dates.error); }

    // 5. the minutes
    var pieces := Series.ConvertColumn(df, TimePieceCell);
    if pieces.Err? { return Err(pieces.error); }
    var times := Series.ConvertColumn(pieces.value, TimeCell);
    if times.Err? { return Err(times.error); }

    var rows := seq(|df|, i requires 0 <= i < |df| =>
                      Assemble(df[i], ages.value[i], multiples.value[i], dates.value[i], times.value[i]));
    result := Ok(rows);
  }
}

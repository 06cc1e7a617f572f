/**
  The hand-over between the fetchers and the loader. Each fetcher writes its
  records as a JSON list of {data_referencia, valor} objects with a numeric
  valor. The loader reads back pib_trimestral.json, the IBGE list, among its
  five files; gdp_worldbank_usd.json, the World Bank list, is not one of
  them. Every date a fetcher emits is a fixed point of normalize_date, so
  the loader keeps every IBGE record with its date unchanged, and would do
  the same with the World Bank records if that file were loaded.
 */
module Pipeline {
  import opened Options
  import opened Calendar
  import opened PyConv
  import opened Series
  import opened Store
  import opened Sequences
  import opened Loader
  import IbgePib
  import WorldBankGdp

  /** The item the loader reads back for a written record. */
  function AsItem(o: Observation): LoadItem {
    LoadItem(Some(o.date), JNumber(o.value))
  }

  /** The written records of a fetcher, as the loader reads them. */
  function Items(obs: seq<Observation>): (items: seq<LoadItem>)
    ensures |items| == |obs|
  {
    seq(|obs|, i requires 0 <= i < |obs| => AsItem(obs[i]))
  }

  /** The (date, value) pairs the records stand for. */
  function Rows(obs: seq<Observation>): (rows: seq<Row>)
    ensures |rows| == |obs|
    ensures forall i :: 0 <= i < |obs| ==> rows[i].date == obs[i].date && rows[i].value == obs[i].value
  {
    seq(|obs|, i requires 0 <= i < |obs| => Row(obs[i].date, obs[i].value))
  }

  /** A YYYY-MM-DD string of a valid date passes normalize_date unchanged. */
  lemma IsoDateIsFixedPoint(s: string)
    requires IsIsoDate(s)
    ensures NormalizeDate(s) == Some(s)
  {
    var d :| ValidDate(d) && FormatIso(d) == s;
    NormalizeIso(d);
  }

  /** A record with an ISO date is a usable item whose row is the record. */
  lemma EmittedItemUsable(o: Observation, parse: string -> Option<real>)
    requires IsIsoDate(o.date)
    ensures ItemRow(AsItem(o), parse) == Some(Row(o.date, o.value))
  {
    IsoDateIsFixedPoint(o.date);
    ItemRowUsable(AsItem(o), parse);
  }

  /** Records with ISO dates all pass validation, in order and unchanged:
      nothing is skipped. */
  lemma ValidRowsOfEmitted(obs: seq<Observation>, parse: string -> Option<real>)
    requires forall o :: o in obs ==> IsIsoDate(o.date)
    ensures ValidRows(Items(obs), parse) == Rows(obs)
  {
    var items := Items(obs);
    var f := item => ItemRow(item, parse);
    forall i | 0 <= i < |items| ensures f(items[i]) == Some(Rows(obs)[i]) {
      assert obs[i] in obs;
      EmittedItemUsable(obs[i], parse);
    }
    CollectAll(items, f);
  }

  /** Loading records with ISO dates is loading exactly their rows, with no
      record skipped. */
  lemma LoadEmitted(t: Table, col: NumericType, obs: seq<Observation>, parse: string -> Option<real>,
                    outage: nat -> bool)
    requires forall o :: o in obs ==> IsIsoDate(o.date)
    ensures LoadTable(t, col, Items(obs), parse, outage) == LoadRows(t, col, |obs|, Rows(obs), outage)
    ensures obs != [] ==> LoadTable(t, col, Items(obs), parse, outage).report.Loaded?
    ensures obs != [] ==> LoadTable(t, col, Items(obs), parse, outage).report.skipped == 0
  {
    ValidRowsOfEmitted(obs, parse);
    LoadTableRows(t, col, Items(obs), parse, outage);
  }

  /** The quarterly GDP series is loaded whole: every record the IBGE script
      writes passes the loader's validation unchanged. */
  lemma IbgeOutputLoads(raw: seq<IbgePib.SidraRow>, parse: string -> Option<real>, load: string -> Option<real>)
    ensures ValidRows(Items(IbgePib.Output(raw, parse)), load) == Rows(IbgePib.Output(raw, parse))
    ensures forall o :: o in IbgePib.Output(raw, parse) ==> NormalizeDate(o.date) == Some(o.date)
  {
    var obs := IbgePib.Output(raw, parse);
    IbgePib.OutputDates(raw, parse);
    ValidRowsOfEmitted(obs, load);
    forall o | o in obs ensures NormalizeDate(o.date) == Some(o.date) {
      IsoDateIsFixedPoint(o.date);
    }
  }

  /** The annual GDP series would be loaded whole, and so would the partial
      list written after an aborted loop, if the loader read that file; its
      file list leaves it out. */
  lemma WorldBankOutputLoads(raw: Option<seq<WorldBankGdp.WbElement>>, parse: string -> Option<real>,
                             load: string -> Option<real>)
    ensures ValidRows(Items(WorldBankGdp.Output(raw, parse)), load) == Rows(WorldBankGdp.Output(raw, parse))
    ensures forall o :: o in WorldBankGdp.Output(raw, parse) ==> NormalizeDate(o.date) == Some(o.date)
  {
    var obs := WorldBankGdp.Output(raw, parse);
    WorldBankGdp.OutputDates(raw, parse);
    forall o | o in obs ensures IsIsoDate(o.date) && NormalizeDate(o.date) == Some(o.date) {
      var year :| MinYear <= year <= MaxYear && WorldBankGdp.YearEnd(year) == o.date;
      IsoDateIsFixedPoint(o.date);
    }
    ValidRowsOfEmitted(obs, load);
  }
}

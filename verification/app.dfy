/**
 * The page that ties the calendar and the box selection together: the
 * selected date keys, the day-type dialog, and the store that maps each
 * date key to its type (1 work day, 2 rest day, 3 holiday).
 */
module DayTypes {
  import opened Optional
  import opened BoxSelection

  const WorkDay := 1
  const RestDay := 2
  const Holiday := 3

  /**
   * The keys, in `keys` order, whose stored type is `t`.  A key stored with
   * no type (the dialog was confirmed without a choice) has no list.
   */
  function DaysOfType(keys: seq<string>, dates: map<string, Option<int>>, t: int): (r: seq<string>)
    ensures |r| <= |keys|
    ensures forall d :: d in r ==> d in keys && d in dates && dates[d] == Some(t)
  {
    if keys == [] then []
    else
      var last := keys[|keys| - 1];
      DaysOfType(keys[..|keys| - 1], dates, t) + (if last in dates && dates[last] == Some(t) then [last] else [])
  }

  /** A key is listed under `t` exactly when it is a key and its stored type is `t`. */
  lemma {:induction false} DaysOfTypeMembers(keys: seq<string>, dates: map<string, Option<int>>, t: int, d: string)
    ensures d in DaysOfType(keys, dates, t) <==> d in keys && d in dates && dates[d] == Some(t)
  {
    if keys != [] {
      var init := keys[..|keys| - 1];
      DaysOfTypeMembers(init, dates, t, d);
      assert keys == init + [keys[|keys| - 1]];
    }
  }

  /** When `keys` lists the store's keys, the list of `t` holds exactly the keys stored with type `t`. */
  lemma DaysOfTypeExactly(keys: seq<string>, dates: map<string, Option<int>>, t: int)
    requires forall k :: k in dates ==> k in keys
    ensures forall d :: d in DaysOfType(keys, dates, t) <==> d in dates && dates[d] == Some(t)
  {
    forall d {
      DaysOfTypeMembers(keys, dates, t, d);
    }
  }

  /** No key is listed under two types. */
  lemma TypesDisjoint(keys: seq<string>, dates: map<string, Option<int>>, t1: int, t2: int, d: string)
    requires t1 != t2
    ensures !(d in DaysOfType(keys, dates, t1) && d in DaysOfType(keys, dates, t2))
  {
  }

  /** A key stored without a type is in none of the three lists. */
  lemma UntypedUnlisted(keys: seq<string>, dates: map<string, Option<int>>, d: string)
    requires d in dates && dates[d] == None
    ensures d !in DaysOfType(keys, dates, WorkDay)
    ensures d !in DaysOfType(keys, dates, RestDay)
    ensures d !in DaysOfType(keys, dates, Holiday)
  {
  }

  /** The `data-date` of each selected element, in order. */
  function DataDates(selected: seq<Element>): (r: seq<string>)
    ensures |r| == |selected| && forall i :: 0 <= i < |r| ==> r[i] == selected[i].dataDate
  {
    seq(|selected|, i requires 0 <= i < |selected| => selected[i].dataDate)
  }

  /** `keys` lists every key of `dates` exactly once. */
  predicate KeysOf(keys: seq<string>, dates: map<string, Option<int>>) {
    (forall i, j :: 0 <= i < j < |keys| ==> keys[i] != keys[j]) &&
    (forall k :: k in keys ==> k in dates) && (forall k :: k in dates ==> k in keys)
  }

  /** Setting one key: a new key is listed last, an existing one keeps its place. */
  lemma PutKeeps(keys: seq<string>, dates: map<string, Option<int>>, k: string, v: Option<int>)
    requires KeysOf(keys, dates)
    ensures KeysOf(if k in dates then keys else keys + [k], dates[k := v])
  {
  }

  /**
   * `{...prev, [date]: value}` for every date in `todo` in turn: the dates
   * in `todo` end up holding `value`, every other key keeps what it held,
   * and keys already present keep their order.
   */
  method AssignAll(dates0: map<string, Option<int>>, keys0: seq<string>, todo: seq<string>, value: Option<int>)
    returns (dates: map<string, Option<int>>, keys: seq<string>)
    requires KeysOf(keys0, dates0)
    ensures KeysOf(keys, dates)
    ensures forall d :: d in todo ==> d in dates && dates[d] == value
    ensures forall d :: d !in todo ==> (d in dates <==> d in dates0) && (d in dates0 ==> dates[d] == dates0[d])
    ensures |keys| >= |keys0| && keys[..|keys0|] == keys0
  {
    dates, keys := dates0, keys0;
    for i := 0 to |todo|
      invariant KeysOf(keys, dates)
      invariant forall d :: d in todo[..i] ==> d in dates && dates[d] == value
      invariant forall d :: d !in todo[..i] ==> (d in dates <==> d in dates0) && (d in dates0 ==> dates[d] == dates0[d])
      invariant |keys| >= |keys0| && keys[..|keys0|] == keys0
    {
      var date := todo[i];
      assert todo[..i + 1] == todo[..i] + [date];
      PutKeeps(keys, dates, date, value);
      if date !in dates {
        keys := keys + [date];
      }
      dates := dates[date := value];
    }
    assert todo[..|todo|] == todo;
  }

  class App {
    var selectDates: seq<string>
    var open: bool
    var dateType: Option<int>
    var dates: map<string, Option<int>>
    /** The keys of `dates` in the order they were first set, as `Object.keys` lists them. */
    var keys: seq<string>

    predicate Valid()
      reads this
    {
      KeysOf(keys, dates)
    }

    function WorkDays(): (r: seq<string>)
      requires Valid()
      reads this
      ensures forall d :: d in r <==> d in dates && dates[d] == Some(WorkDay)
    {
      DaysOfTypeExactly(keys, dates, WorkDay);
      DaysOfType(keys, dates, WorkDay)
    }

    function RestDays(): (r: seq<string>)
      requires Valid()
      reads this
      ensures forall d :: d in r <==> d in dates && dates[d] == Some(RestDay)
    {
      DaysOfTypeExactly(keys, dates, RestDay);
      DaysOfType(keys, dates, RestDay)
    }

    function HolidayDays(): (r: seq<string>)
      requires Valid()
      reads this
      ensures forall d :: d in r <==> d in dates && dates[d] == Some(Holiday)
    {
      DaysOfTypeExactly(keys, dates, Holiday);
      DaysOfType(keys, dates, Holiday)
    }

    constructor()
      ensures Valid()
      ensures selectDates == [] && !open && dateType == None && dates == map[] && keys == []
    {
      selectDates := [];
      open := false;
      dateType := None;
      dates := map[];
      keys := [];
    }

    /** The selection changed: keep the selected elements' date keys, in order. */
    method OnSelectChange(selected: seq<Element>)
      requires Valid()
      modifies this
      ensures Valid()
      ensures |selectDates| == |selected| && forall i :: 0 <= i < |selected| ==> selectDates[i] == selected[i].dataDate
      ensures open == old(open) && dateType == old(dateType) && dates == old(dates) && keys == old(keys)
    {
      selectDates := DataDates(selected);
    }

    /** The drag ended: open the dialog if anything is selected. */
    method OnSelectEnd()
      requires Valid()
      modifies this
      ensures Valid()
      ensures open == (old(open) || |selectDates| > 0)
      ensures selectDates == old(selectDates) && dateType == old(dateType)
      ensures dates == old(dates) && keys == old(keys)
    {
      if |selectDates| > 0 {
        open := true;
      }
    }

    /** A type was picked in the dialog. */
    method SetDateType(value: int)
      requires Valid()
      modifies this
      ensures Valid()
      ensures dateType == Some(value)
      ensures selectDates == old(selectDates) && open == old(open) && dates == old(dates) && keys == old(keys)
    {
      dateType := Some(value);
    }

    /** Cancel: close the dialog and forget the selection and the choice; the store is untouched. */
    method OnCancel()
      requires Valid()
      modifies this
      ensures Valid()
      ensures !open && selectDates == [] && dateType == None
      ensures dates == old(dates) && keys == old(keys)
    {
      open := false;
      selectDates := [];
      dateType := None;
    }

    /**
     * OK: store the chosen type (possibly none) under every selected key,
     * leave every other key as it was, then close the dialog and forget the
     * selection and the choice.  New keys are listed after the old ones.
     */
    method OnOk()
      requires Valid()
      modifies this
      ensures Valid()
      ensures !open && selectDates == [] && dateType == None
      ensures forall d :: d in old(selectDates) ==> d in dates && dates[d] == old(dateType)
      ensures forall d :: d !in old(selectDates) ==>
                (d in dates <==> d in old(dates)) && (d in old(dates) ==> dates[d] == old(dates)[d])
      ensures |keys| >= |old(keys)| && keys[..|old(keys)|] == old(keys)
    {
      open := false;
      dates, keys := AssignAll(dates, keys, selectDates, dateType);
      selectDates := [];
      dateType := None;
    }
  }

  /**
   * After OK, every selected key is listed under exactly the chosen type, and
   * under none when no type was chosen.
   */
  lemma OkListsSelection(keys: seq<string>, dates: map<string, Option<int>>, d: string, chosen: Option<int>, t: int)
    requires forall k :: k in keys <==> k in dates
    requires d in dates && dates[d] == chosen
    ensures d in DaysOfType(keys, dates, t) <==> chosen == Some(t)
  {
    DaysOfTypeMembers(keys, dates, t, d);
  }
}

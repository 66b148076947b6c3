/** Persistence of the bump counter and the countdown as the text
    `"<bumpCount>,<remainingTime>"`. The file itself is not modelled: `Save`
    returns the text that would be written and `Load` takes the text that was
    read, or `None` when reading failed. */
module DataHandler {
  import opened Wrappers
  import opened JsText
  import opened AppState

  /** The text `save` writes: the counter, a comma, and the remaining time in
      seconds with negative values written as 0. Reading the two comma-separated
      fields back with `parseInt` gives the counter and the whole seconds. */
  function Save(st: BotState): (text: string)
    ensures |Split(text, ',')| == 2
    ensures ParseInt(Split(text, ',')[0]) == Some(st.bumpCount)
    ensures ParseInt(Split(text, ',')[1]) == Some(Max(st.remainingMs, 0) / 1000)
  {
    var count := NumberText(st.bumpCount);
    var time := SecondsText(Max(st.remainingMs, 0));
    NoCommaInNumberText(st.bumpCount);
    SplitAtFirst(count, ',', time);
    SplitWithoutSeparator(time, ',');
    ParseIntOfNumberText(st.bumpCount, "");
    assert count + "" == count;
    ParseIntOfSecondsText(Max(st.remainingMs, 0));
    count + "," + time
  }

  /** The counter field of a file's text: what precedes the first comma. */
  function CountField(text: string): string {
    Split(text, ',')[0]
  }

  /** The time field of a file's text: what lies between the first and the second comma. */
  function TimeField(text: string): string
    requires ',' in text
  {
    SplitHasTwoPieces(text, ',');
    Split(text, ',')[1]
  }

  /** `load`: text that is missing, empty or without a comma leaves the state as
      it is; otherwise each of the first two fields that `parseInt` reads
      replaces the counter, respectively the remaining seconds clamped at 0,
      and a field that reads as NaN keeps the value it would have replaced. */
  function Load(st: BotState, file: Option<string>): (r: BotState)
    ensures r == st.(bumpCount := r.bumpCount, remainingMs := r.remainingMs)
    ensures file.None? || ',' !in file.value ==> r == st
    ensures file.Some? && ',' in file.value ==>
      && r.bumpCount == ParseInt(CountField(file.value)).GetOr(st.bumpCount)
      && (ParseInt(TimeField(file.value)).None? ==> r.remainingMs == st.remainingMs)
      && (ParseInt(TimeField(file.value)).Some? ==>
            r.remainingMs == 1000 * Max(ParseInt(TimeField(file.value)).value, 0))
    ensures st.remainingMs >= 0 ==> r.remainingMs >= 0
  {
    match file
    case None => st
    case Some(data) =>
      if |data| == 0 || ',' !in data then st
      else
        var count := ParseInt(CountField(data));
        var time := ParseInt(TimeField(data));
        var st1 := if count.Some? then st.(bumpCount := count.value) else st;
        if time.Some? then st1.(remainingMs := Max(time.value, 0) * 1000) else st1
  }

  /** Loading what was saved restores the counter exactly and the remaining
      time truncated to whole seconds (negative time as 0), over any prior state. */
  lemma LoadSave(st: BotState, prior: BotState)
    ensures Load(prior, Some(Save(st)))
         == prior.(bumpCount := st.bumpCount, remainingMs := Max(st.remainingMs, 0) / 1000 * 1000)
  {
    var text := Save(st);
    assert text[|NumberText(st.bumpCount)|] == ',';
  }

  /** The remaining time survives a save and a load exactly when it is a
      non-negative whole number of seconds. */
  lemma LoadSaveExact(st: BotState, prior: BotState)
    ensures Load(prior, Some(Save(st))).remainingMs == st.remainingMs
        <==> st.remainingMs >= 0 && st.remainingMs % 1000 == 0
  {
    LoadSave(st, prior);
  }
}

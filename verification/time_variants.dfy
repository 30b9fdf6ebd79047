/** The five time readers side by side: they agree on "h:m:s" with integer
    fields and part ways on everything else. */
module TimeVariants {
  import opened Text
  import opened Clock
  import Processor
  import Scraper
  import App
  import StreamlitApp

  /** Three integer fields read as h*3600 + m*60 + s in every copy. */
  lemma AgreeOnThreeFields(h: string, m: string, s: string)
    requires IsField(h) && IsField(m) && IsField(s)
    ensures var v := HmsValue(ParseInt(h).value, ParseInt(m).value, ParseInt(s).value);
      && Processor.ConvertTimeToSeconds(h + ":" + m + ":" + s) == Finite(v)
      && Scraper.ConvertTimeToSeconds(h + ":" + m + ":" + s) == v
      && App.ConvertTimeToSeconds(h + ":" + m + ":" + s) == Finite(v)
      && App.ConvertSplitTimeToSeconds(h + ":" + m + ":" + s) == Some(Finite(v))
      && StreamlitApp.TimeToSeconds(StreamlitApp.Str(h + ":" + m + ":" + s)) == StreamlitApp.Value(StreamlitApp.Number(v as real))
  {
    Processor.ConvertThreeFields(h, m, s);
    Scraper.ConvertThreeFields(h, m, s);
    App.ConvertThreeFields(h, m, s);
    App.SplitThreeFields(h, m, s);
    StreamlitApp.ThreeFields(h, m, s);
  }

  /** "m:s" with integer fields: the processor and the viewer's split reader
      give m*60 + s, the scraper 0, the viewer's total reader `inf`, and the
      chart page raises. */
  lemma DisagreeOnTwoFields(m: string, s: string)
    requires IsField(m) && IsField(s)
    ensures var v := MsValue(ParseInt(m).value, ParseInt(s).value);
      && Processor.ConvertTimeToSeconds(m + ":" + s) == Finite(v)
      && Scraper.ConvertTimeToSeconds(m + ":" + s) == 0
      && App.ConvertTimeToSeconds(m + ":" + s) == Inf
      && App.ConvertSplitTimeToSeconds(m + ":" + s) == Some(Finite(v))
      && StreamlitApp.TimeToSeconds(StreamlitApp.Str(m + ":" + s)) == StreamlitApp.Raises
  {
    Processor.ConvertTwoFields(m, s);
    FieldsOfTwo(m, s);
    App.ConvertRejectsTwoFields(m, s);
    App.SplitTwoFields(m, s);
    StreamlitApp.TwoFieldsRaise(m, s);
  }

  /** Empty text: `inf`, 0, `inf`, `None`, and an error. */
  lemma DisagreeOnEmpty()
    ensures Processor.ConvertTimeToSeconds("") == Inf
    ensures Scraper.ConvertTimeToSeconds("") == 0
    ensures App.ConvertTimeToSeconds("") == Inf
    ensures App.ConvertSplitTimeToSeconds("") == None
    ensures StreamlitApp.TimeToSeconds(StreamlitApp.Str("")) == StreamlitApp.Raises
  {
    SplitNoSeparator("", ':');
  }
}

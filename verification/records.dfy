/** The team record the scraper emits: one dictionary per team with its BIB,
    team name, members, club, the two time columns (`Time`), the parsed splits
    and the category. */
module Records {

  /** One parsed split: the label text, the time text and the 1-based
      position of its piece in the raw split text. */
  datatype ScrapedSplit = ScrapedSplit(name: string, time: string, order: nat)

  /** The team dictionary as a value; `Time` is `[secondLastTime, totalTime]`. */
  datatype Team = Team(
    bib: string,
    team: string,
    members: seq<string>,
    club: string,
    secondLastTime: string,
    totalTime: string,
    splits: seq<ScrapedSplit>,
    category: string)

  /** The same dictionary as a mutable object, for the code that overwrites
      one of its keys in place. */
  class TeamEntry {
    var bib: string
    var team: string
    var members: seq<string>
    var club: string
    var secondLastTime: string
    var totalTime: string
    var splits: seq<ScrapedSplit>
    var category: string

    /** The dictionary's current contents. */
    function Record(): Team
      reads this
    {
      Team(bib, team, members, club, secondLastTime, totalTime, splits, category)
    }

    constructor (t: Team)
      ensures Record() == t
    {
      bib := t.bib;
      team := t.team;
      members := t.members;
      club := t.club;
      secondLastTime := t.secondLastTime;
      totalTime := t.totalTime;
      splits := t.splits;
      category := t.category;
    }
  }
}

/**
 The SpaceX launch dashboard: the payload bounds that seed the range slider,
 the options of the launch-site dropdown, and the data behind the two charts
 (the success pie and the payload/outcome scatter), each a pure function of the
 launch table and the current control values.
 */
module Dashboard {
  import opened Frames

  /** One row of the launch table: 'Launch Site', 'Payload Mass (kg)', 'class', 'Booster Version Category'. */
  datatype Launch = Launch(site: string, payload: real, outcome: int, booster: string)

  datatype Option<T> = None | Some(value: T)

  /** The dropdown value that selects every launch site. */
  const AllSites: string := "ALL"

  /** One entry of the dropdown: what it shows and the value it sends to the callbacks. */
  datatype DropdownOption = DropdownOption(text: string, value: string)

  const AllSitesOption: DropdownOption := DropdownOption("All Sites", AllSites)

  /** The charts' fixed titles. */
  const AllSitesPieTitle: string := "All Sites Successful Launches Distribution"
  const SitePieTitlePrefix: string := "Successful vs. Failed Launches for "
  const ScatterTitle: string := "Correlation between Payload and Outcome"
  const ScatterXTitle: string := "Payload Mass (kg)"
  const ScatterYTitle: string := "Outcome"

  /* ---------------------------------------------------------------------------
     Columns and masks
     ------------------------------------------------------------------------- */

  function Site(r: Launch): (site: string) { r.site }

  function Outcome(r: Launch): (outcome: int) { r.outcome }

  /** The mask `class == 1`. */
  predicate Succeeded(r: Launch) { r.outcome == 1 }

  /** The mask `'Launch Site' == site`. */
  function OfSite(site: string): (mask: Launch -> bool)
  {
    (r: Launch) => r.site == site
  }

  /** The mask `lo <= 'Payload Mass (kg)' <= hi`. */
  function InRange(lo: real, hi: real): (mask: Launch -> bool)
  {
    (r: Launch) => lo <= r.payload <= hi
  }

  /** The 'Launch Site' column. */
  function Sites(rs: seq<Launch>): (col: seq<string>)
    ensures |col| == |rs|
    ensures forall i :: 0 <= i < |rs| ==> col[i] == rs[i].site
  {
    seq(|rs|, i requires 0 <= i < |rs| => rs[i].site)
  }

  /* ---------------------------------------------------------------------------
     Payload bounds (the slider's initial value)
     ------------------------------------------------------------------------- */

  /** `max()` of the payload column; None stands for the NaN of an empty table. */
  function MaxPayload(rs: seq<Launch>): (m: Option<real>)
    ensures m.None? <==> rs == []
    ensures m.Some? ==> exists r :: r in rs && r.payload == m.value
    ensures m.Some? ==> forall r :: r in rs ==> r.payload <= m.value
  {
    if rs == [] then None
    else
      match MaxPayload(rs[1..])
      case None => Some(rs[0].payload)
      case Some(m) => Some(if rs[0].payload < m then m else rs[0].payload)
  }

  /** `min()` of the payload column; None stands for the NaN of an empty table. */
  function MinPayload(rs: seq<Launch>): (m: Option<real>)
    ensures m.None? <==> rs == []
    ensures m.Some? ==> exists r :: r in rs && r.payload == m.value
    ensures m.Some? ==> forall r :: r in rs ==> m.value <= r.payload
  {
    if rs == [] then None
    else
      match MinPayload(rs[1..])
      case None => Some(rs[0].payload)
      case Some(m) => Some(if m < rs[0].payload then m else rs[0].payload)
  }

  /** On a non-empty table the bounds are ordered and enclose every payload. */
  lemma PayloadBoundsEnclose(rs: seq<Launch>)
    requires rs != []
    ensures MinPayload(rs).value <= MaxPayload(rs).value
    ensures forall r :: r in rs ==> MinPayload(rs).value <= r.payload <= MaxPayload(rs).value
  {
    assert rs[0] in rs;
  }

  /* ---------------------------------------------------------------------------
     The launch-site dropdown
     ------------------------------------------------------------------------- */

  /** `spacex_df['Launch Site'].unique()`. */
  function LaunchSites(rs: seq<Launch>): (sites: seq<string>)
    ensures forall r :: r in rs ==> r.site in sites
    ensures forall s :: s in sites ==> exists r :: r in rs && r.site == s
    ensures Distinct(sites)
  {
    var col := Sites(rs);
    assert forall r :: r in rs ==> r.site in col by {
      forall r | r in rs ensures r.site in col {
        var i :| 0 <= i < |rs| && rs[i] == r;
        assert col[i] == r.site;
      }
    }
    Unique(col)
  }

  /** The sites in the dropdown are as many as the distinct sites of the table. */
  lemma LaunchSitesCount(rs: seq<Launch>)
    ensures |LaunchSites(rs)| == |set r | r in rs :: r.site|
  {
    var col := Sites(rs);
    UniqueSize(col);
    assert (set s | s in col) == (set r | r in rs :: r.site) by {
      forall s | s in col ensures s in (set r | r in rs :: r.site) {
        var i :| 0 <= i < |col| && col[i] == s;
        assert rs[i] in rs;
      }
      forall r | r in rs ensures r.site in col {
        var i :| 0 <= i < |rs| && rs[i] == r;
        assert col[i] == r.site;
      }
    }
  }

  /** The dropdown lists the sites in the order in which each first occurs in the table. */
  lemma LaunchSitesOrder(rs: seq<Launch>, i: nat, j: nat)
    requires i < j < |LaunchSites(rs)|
    ensures FirstIndex(Sites(rs), LaunchSites(rs)[i]) < FirstIndex(Sites(rs), LaunchSites(rs)[j])
  {
    UniqueFirstAppearance(Sites(rs), i, j);
  }

  /**
   Builds the dropdown options: the 'All Sites' entry, then one entry per
   distinct site, labelled and valued by the site name, in the order of
   `unique()`.
   */
  method DropdownOptions(rs: seq<Launch>) returns (options: seq<DropdownOption>)
    ensures |options| == 1 + |LaunchSites(rs)| == 1 + |set r | r in rs :: r.site|
    ensures options[0] == AllSitesOption
    ensures forall i :: 1 <= i < |options| ==> options[i] == DropdownOption(LaunchSites(rs)[i - 1], LaunchSites(rs)[i - 1])
    ensures forall i, j :: 1 <= i < j < |options| ==> options[i].value != options[j].value
    ensures forall r :: r in rs ==> exists i :: 1 <= i < |options| && options[i].value == r.site
  {
    var launchSites := LaunchSites(rs);
    options := [AllSitesOption];
    for k := 0 to |launchSites|
      invariant |options| == 1 + k
      invariant options[0] == AllSitesOption
      invariant forall i :: 1 <= i < |options| ==> options[i] == DropdownOption(launchSites[i - 1], launchSites[i - 1])
    {
      options := options + [DropdownOption(launchSites[k], launchSites[k])];
    }
    LaunchSitesCount(rs);
    forall r | r in rs ensures exists i :: 1 <= i < |options| && options[i].value == r.site {
      var k :| 0 <= k < |launchSites| && launchSites[k] == r.site;
      assert options[k + 1].value == r.site;
    }
  }

  /* ---------------------------------------------------------------------------
     The pie chart
     ------------------------------------------------------------------------- */

  /** The successful launches (`class == 1`), counted per launch site. */
  function PieAll(rs: seq<Launch>): (counts: map<string, nat>)
  {
    GroupSizes(Where(rs, Succeeded), Site)
  }

  /** The launches of one site, counted per outcome class. */
  function PieSite(rs: seq<Launch>, site: string): (counts: map<int, nat>)
  {
    GroupSizes(Where(rs, OfSite(site)), Outcome)
  }

  /** The data and title handed to the pie renderer. */
  datatype PieChart =
    | SitePie(bySite: map<string, nat>, title: string)
    | OutcomePie(byOutcome: map<int, nat>, title: string)

  /**
   `get_pie_chart`: for 'ALL', one slice per site that has a successful launch,
   the slices adding up to the number of successes; for a site, one slice per
   outcome class among that site's launches, adding up to its launches.
   */
  function GetPieChart(rs: seq<Launch>, enteredSite: string): (chart: PieChart)
    ensures chart.SitePie? <==> enteredSite == AllSites
    ensures chart.SitePie? ==> chart.bySite == PieAll(rs) && chart.title == AllSitesPieTitle
    ensures chart.SitePie? ==>
      forall s :: s in chart.bySite <==> exists r :: r in rs && r.site == s && r.outcome == 1
    ensures chart.SitePie? ==> forall s :: s in chart.bySite ==> chart.bySite[s] > 0
    ensures chart.SitePie? ==> Total(chart.bySite) == Tally(rs, Outcome, 1)
    ensures chart.OutcomePie? ==> chart.byOutcome == PieSite(rs, enteredSite) && chart.title == SitePieTitlePrefix + enteredSite
    ensures chart.OutcomePie? ==>
      forall c :: c in chart.byOutcome <==> exists r :: r in rs && r.site == enteredSite && r.outcome == c
    ensures chart.OutcomePie? ==> forall c :: c in chart.byOutcome ==> chart.byOutcome[c] > 0
    ensures chart.OutcomePie? ==> Total(chart.byOutcome) == Tally(rs, Site, enteredSite)
  {
    if enteredSite == AllSites then
      PieAllTotal(rs);
      assert forall s :: s in PieAll(rs) <==> exists r :: r in rs && r.site == s && r.outcome == 1 by {
        forall s ensures s in PieAll(rs) <==> exists r :: r in rs && r.site == s && r.outcome == 1 {
          PieAllSlices(rs, s);
        }
      }
      SitePie(PieAll(rs), AllSitesPieTitle)
    else
      PieSiteTotal(rs, enteredSite);
      assert forall c :: c in PieSite(rs, enteredSite) <==>
                         exists r :: r in rs && r.site == enteredSite && r.outcome == c by {
        forall c ensures c in PieSite(rs, enteredSite) <==>
                         exists r :: r in rs && r.site == enteredSite && r.outcome == c {
          PieSiteSlices(rs, enteredSite, c);
        }
      }
      OutcomePie(PieSite(rs, enteredSite), SitePieTitlePrefix + enteredSite)
  }

  /**
   The all-sites pie has a slice for a site exactly when the site has a
   successful launch, and the slice is the number of its successful launches.
   */
  lemma {:induction false} PieAllSlices(rs: seq<Launch>, site: string)
    ensures site in PieAll(rs) <==> exists r :: r in rs && r.site == site && r.outcome == 1
    ensures site in PieAll(rs) ==> PieAll(rs)[site] == Tally(Where(rs, Succeeded), Site, site) > 0
  {
    var ok := Where(rs, Succeeded);
    forall r | r in rs && r.site == site && r.outcome == 1 ensures site in PieAll(rs) {
      WhereMembers(rs, Succeeded, r);
      assert Site(r) == site;
    }
    if site in PieAll(rs) {
      var r :| r in ok && Site(r) == site;
      WhereMembers(rs, Succeeded, r);
    }
  }

  /** The number of successful launches, counted directly on the table. */
  lemma {:induction false} SuccessCount(rs: seq<Launch>)
    ensures |Where(rs, Succeeded)| == Tally(rs, Outcome, 1)
  {
    if rs != [] {
      SuccessCount(rs[..|rs| - 1]);
    }
  }

  /** The all-sites pie's slices add up to the number of launches with `class == 1`. */
  lemma {:induction false} PieAllTotal(rs: seq<Launch>)
    ensures Total(PieAll(rs)) == Tally(rs, Outcome, 1)
  {
    GroupSizesTotal(Where(rs, Succeeded), Site);
    SuccessCount(rs);
  }

  /**
   A site's pie has a slice for an outcome class exactly when one of the site's
   launches has it, and the slice is the number of those launches.
   */
  lemma {:induction false} PieSiteSlices(rs: seq<Launch>, site: string, outcome: int)
    ensures outcome in PieSite(rs, site) <==> exists r :: r in rs && r.site == site && r.outcome == outcome
    ensures outcome in PieSite(rs, site) ==> PieSite(rs, site)[outcome] == Tally(Where(rs, OfSite(site)), Outcome, outcome) > 0
  {
    var at := Where(rs, OfSite(site));
    forall r | r in rs && r.site == site && r.outcome == outcome ensures outcome in PieSite(rs, site) {
      WhereMembers(rs, OfSite(site), r);
      assert Outcome(r) == outcome;
    }
    if outcome in PieSite(rs, site) {
      var r :| r in at && Outcome(r) == outcome;
      WhereMembers(rs, OfSite(site), r);
    }
  }

  /** The number of a site's launches, counted directly on the table. */
  lemma {:induction false} SiteCount(rs: seq<Launch>, site: string)
    ensures |Where(rs, OfSite(site))| == Tally(rs, Site, site)
  {
    if rs != [] {
      SiteCount(rs[..|rs| - 1], site);
    }
  }

  /** A site's pie slices add up to the number of launches from that site. */
  lemma {:induction false} PieSiteTotal(rs: seq<Launch>, site: string)
    ensures Total(PieSite(rs, site)) == Tally(rs, Site, site)
  {
    GroupSizesTotal(Where(rs, OfSite(site)), Outcome);
    SiteCount(rs, site);
  }

  /** A count map keyed by outcome classes 0 and 1 has at most two entries. */
  lemma BinaryKeysSize(m: map<int, nat>)
    requires m.Keys <= {0, 1}
    ensures |m| <= 2
  {
    if 0 in m && 1 in m {
      assert m.Keys == {0, 1};
    } else if 0 in m {
      assert m.Keys == {0};
    } else if 1 in m {
      assert m.Keys == {1};
    } else {
      assert m.Keys == {};
    }
  }

  /** With outcome classes 0 and 1 only, a site's pie has at most the two slices 0 and 1. */
  lemma {:induction false} PieSiteBinary(rs: seq<Launch>, site: string)
    requires forall r :: r in rs ==> r.outcome == 0 || r.outcome == 1
    ensures PieSite(rs, site).Keys <= {0, 1}
    ensures |PieSite(rs, site)| <= 2
  {
    var at := Where(rs, OfSite(site));
    var m := PieSite(rs, site);
    forall c | c in m ensures c == 0 || c == 1 {
      var r :| r in at && Outcome(r) == c;
      WhereMembers(rs, OfSite(site), r);
    }
    BinaryKeysSize(m);
  }

  /** A selection that is neither 'ALL' nor a site of the table gives an empty pie. */
  lemma PieUnknownSite(rs: seq<Launch>, site: string)
    requires site != AllSites
    requires forall r :: r in rs ==> r.site != site
    ensures GetPieChart(rs, site) == OutcomePie(map[], SitePieTitlePrefix + site)
  {
    WhereNone(rs, OfSite(site));
  }

  /* ---------------------------------------------------------------------------
     The scatter chart
     ------------------------------------------------------------------------- */

  /**
   `get_scatter_chart`'s rows: for 'ALL' the launches whose payload lies in the
   inclusive range [lo, hi]; for a site, that site's launches, whatever the range.
   */
  function ScatterFilter(rs: seq<Launch>, siteValue: string, lo: real, hi: real): (points: seq<Launch>)
    ensures |points| <= |rs|
  {
    if siteValue == AllSites then Where(rs, InRange(lo, hi))
    else Where(rs, OfSite(siteValue))
  }

  /** The rows and titles handed to the scatter renderer (x: payload, y: class, colour: booster category). */
  datatype ScatterChart = ScatterChart(points: seq<Launch>, title: string, xTitle: string, yTitle: string)

  /**
   `get_scatter_chart`: the launches of the table, in its order, that are in the
   payload range for 'ALL' or from the selected site otherwise, under the fixed
   title and axis titles.
   */
  function GetScatterChart(rs: seq<Launch>, siteValue: string, lo: real, hi: real): (chart: ScatterChart)
    ensures chart.points == ScatterFilter(rs, siteValue, lo, hi)
    ensures IsSubsequence(chart.points, rs)
    ensures siteValue == AllSites ==>
      forall x :: multiset(chart.points)[x] == if lo <= x.payload <= hi then multiset(rs)[x] else 0
    ensures siteValue != AllSites ==>
      forall x :: multiset(chart.points)[x] == if x.site == siteValue then multiset(rs)[x] else 0
    ensures chart.title == ScatterTitle && chart.xTitle == ScatterXTitle && chart.yTitle == ScatterYTitle
  {
    if siteValue == AllSites then
      ScatterAllSites(rs, lo, hi);
      ScatterChart(ScatterFilter(rs, siteValue, lo, hi), ScatterTitle, ScatterXTitle, ScatterYTitle)
    else
      ScatterOneSite(rs, siteValue, lo, hi);
      ScatterChart(ScatterFilter(rs, siteValue, lo, hi), ScatterTitle, ScatterXTitle, ScatterYTitle)
  }

  /**
   For 'ALL' the scatter keeps every copy of every launch whose payload is in
   [lo, hi], no other launch, and the table's order.
   */
  lemma ScatterAllSites(rs: seq<Launch>, lo: real, hi: real)
    ensures IsSubsequence(ScatterFilter(rs, AllSites, lo, hi), rs)
    ensures forall x :: multiset(ScatterFilter(rs, AllSites, lo, hi))[x] ==
                        if lo <= x.payload <= hi then multiset(rs)[x] else 0
  {
    var idx := WhereKeepsOrder(rs, InRange(lo, hi));
    forall x ensures multiset(ScatterFilter(rs, AllSites, lo, hi))[x] ==
      if lo <= x.payload <= hi then multiset(rs)[x] else 0 {
      WhereMultiplicity(rs, InRange(lo, hi), x);
    }
  }

  /** An inverted range (`lo > hi`) leaves the all-sites scatter empty. */
  lemma ScatterInvertedRange(rs: seq<Launch>, lo: real, hi: real)
    requires lo > hi
    ensures ScatterFilter(rs, AllSites, lo, hi) == []
  {
    WhereNone(rs, InRange(lo, hi));
  }

  /**
   For a site the scatter keeps every copy of every launch from that site, no
   other launch, the table's order, and does not depend on the range.
   */
  lemma ScatterOneSite(rs: seq<Launch>, site: string, lo: real, hi: real)
    requires site != AllSites
    ensures IsSubsequence(ScatterFilter(rs, site, lo, hi), rs)
    ensures forall x :: multiset(ScatterFilter(rs, site, lo, hi))[x] ==
                        if x.site == site then multiset(rs)[x] else 0
    ensures forall lo', hi' :: ScatterFilter(rs, site, lo', hi') == ScatterFilter(rs, site, lo, hi)
  {
    var idx := WhereKeepsOrder(rs, OfSite(site));
    forall x ensures multiset(ScatterFilter(rs, site, lo, hi))[x] ==
      if x.site == site then multiset(rs)[x] else 0 {
      WhereMultiplicity(rs, OfSite(site), x);
    }
  }

  /** A selection that is neither 'ALL' nor a site of the table gives an empty scatter. */
  lemma ScatterUnknownSite(rs: seq<Launch>, site: string, lo: real, hi: real)
    requires site != AllSites
    requires forall r :: r in rs ==> r.site != site
    ensures ScatterFilter(rs, site, lo, hi) == []
  {
    WhereNone(rs, OfSite(site));
  }

  /** With the slider at its initial value [min payload, max payload], 'ALL' shows every launch. */
  lemma ScatterInitialRange(rs: seq<Launch>)
    requires rs != []
    ensures ScatterFilter(rs, AllSites, MinPayload(rs).value, MaxPayload(rs).value) == rs
  {
    PayloadBoundsEnclose(rs);
    WhereAll(rs, InRange(MinPayload(rs).value, MaxPayload(rs).value));
  }
}

/**
 * The connection configuration and the two summaries the script takes of it:
 * `get_master_trace_list` (every trace any site uses, sorted, once each) and
 * `get_max_num_sites` (the largest number of sites of one customer).
 *
 * The JSON object {customer: {site: [trace, ...]}} is modelled as a sequence
 * of customers, each a sequence of sites, in the objects' insertion order,
 * which is the order Python iterates them in.
 */
module Connections {
  import opened Lexicographic

  /** One site of a customer: its name and the traces it is connected to. */
  datatype Site = Site(name: string, traces: seq<string>)

  /** One customer: its name and its sites. */
  datatype Customer = Customer(name: string, sites: seq<Site>)

  type Config = seq<Customer>

  /** Some site of some customer of config lists trace t. */
  ghost predicate Mentions(config: Config, t: string)
  {
    exists c, s :: 0 <= c < |config| && 0 <= s < |config[c].sites| && t in config[c].sites[s].traces
  }

  /** Some site in sites lists trace t. */
  ghost predicate SitesMention(sites: seq<Site>, t: string)
  {
    exists s :: 0 <= s < |sites| && t in sites[s].traces
  }

  /** The inner loop: `acc += traces; acc = np.unique(acc).tolist()` for each site in turn. */
  function AddSites(acc: seq<string>, sites: seq<Site>): (r: seq<string>)
    ensures forall t :: t in r <==> t in acc || SitesMention(sites, t)
    ensures StrictlyAscending(acc) ==> StrictlyAscending(r)
    ensures |sites| > 0 ==> StrictlyAscending(r)
    decreases |sites|
  {
    if |sites| == 0 then acc
    else
      var r := AddSites(Unique(acc + sites[0].traces), sites[1..]);
      assert forall t :: SitesMention(sites, t) <==> t in sites[0].traces || SitesMention(sites[1..], t) by {
        forall t
          ensures SitesMention(sites, t) ==> t in sites[0].traces || SitesMention(sites[1..], t)
        {
          if SitesMention(sites, t) {
            var s :| 0 <= s < |sites| && t in sites[s].traces;
            if s > 0 {
              assert t in sites[1..][s - 1].traces;
            }
          }
        }
        forall t | SitesMention(sites[1..], t)
          ensures SitesMention(sites, t)
        {
          var s :| 0 <= s < |sites[1..]| && t in sites[1..][s].traces;
          assert t in sites[s + 1].traces;
        }
      }
      r
  }

  /** The outer loop: the inner loop for each customer in turn. */
  function AddCustomers(acc: seq<string>, config: Config): (r: seq<string>)
    ensures forall t :: t in r <==> t in acc || Mentions(config, t)
    ensures StrictlyAscending(acc) ==> StrictlyAscending(r)
    decreases |config|
  {
    if |config| == 0 then acc
    else
      var r := AddCustomers(AddSites(acc, config[0].sites), config[1..]);
      assert forall t :: Mentions(config, t) <==> SitesMention(config[0].sites, t) || Mentions(config[1..], t) by {
        forall t
          ensures Mentions(config, t) ==> SitesMention(config[0].sites, t) || Mentions(config[1..], t)
        {
          if Mentions(config, t) {
            var c, s :| 0 <= c < |config| && 0 <= s < |config[c].sites| && t in config[c].sites[s].traces;
            if c > 0 {
              assert t in config[1..][c - 1].sites[s].traces;
            }
          }
        }
        forall t | Mentions(config[1..], t)
          ensures Mentions(config, t)
        {
          var c, s :| 0 <= c < |config[1..]| && 0 <= s < |config[1..][c].sites| && t in config[1..][c].sites[s].traces;
          assert t in config[c + 1].sites[s].traces;
        }
      }
      r
  }

  /**
   * `get_master_trace_list`: every trace that some site of some customer
   * lists, in ascending order, each once. A configuration with no sites
   * gives the empty list.
   */
  function MasterTraceList(config: Config): (r: seq<string>)
    ensures StrictlyAscending(r)
    ensures forall t :: t in r <==> Mentions(config, t)
  {
    AddCustomers([], config)
  }

  /** Every trace listed under the sites, customer by customer, site by site. */
  function AllTraces(config: Config): seq<string>
  {
    if |config| == 0 then [] else SiteTraces(config[0].sites) + AllTraces(config[1..])
  }

  function SiteTraces(sites: seq<Site>): seq<string>
  {
    if |sites| == 0 then [] else sites[0].traces + SiteTraces(sites[1..])
  }

  lemma {:induction false} SiteTracesMention(sites: seq<Site>)
    ensures forall t :: t in SiteTraces(sites) <==> SitesMention(sites, t)
  {
    if |sites| > 0 {
      SiteTracesMention(sites[1..]);
      forall t
        ensures t in SiteTraces(sites) <==> SitesMention(sites, t)
      {
        if SitesMention(sites, t) {
          var s :| 0 <= s < |sites| && t in sites[s].traces;
          if s > 0 {
            assert t in sites[1..][s - 1].traces;
          }
        }
        if SitesMention(sites[1..], t) {
          var s :| 0 <= s < |sites[1..]| && t in sites[1..][s].traces;
          assert t in sites[s + 1].traces;
        }
      }
    }
  }

  lemma {:induction false} AllTracesMention(config: Config)
    ensures forall t :: t in AllTraces(config) <==> Mentions(config, t)
  {
    if |config| > 0 {
      AllTracesMention(config[1..]);
      SiteTracesMention(config[0].sites);
      forall t
        ensures t in AllTraces(config) <==> Mentions(config, t)
      {
        if Mentions(config, t) {
          var c, s :| 0 <= c < |config| && 0 <= s < |config[c].sites| && t in config[c].sites[s].traces;
          if c > 0 {
            assert t in config[1..][c - 1].sites[s].traces;
          } else {
            assert SitesMention(config[0].sites, t);
          }
        }
        if Mentions(config[1..], t) {
          var c, s :| 0 <= c < |config[1..]| && 0 <= s < |config[1..][c].sites| && t in config[1..][c].sites[s].traces;
          assert t in config[c + 1].sites[s].traces;
        }
        if SitesMention(config[0].sites, t) {
          var s :| 0 <= s < |config[0].sites| && t in config[0].sites[s].traces;
          assert t in config[0].sites[s].traces;
        }
      }
    }
  }

  /**
   * Deduplicating after every site gives the same list as one np.unique over
   * all the traces at once: the sorted distinct traces of the configuration.
   */
  lemma MasterTraceListIsUnique(config: Config)
    ensures MasterTraceList(config) == Unique(AllTraces(config))
  {
    AllTracesMention(config);
    AscendingUnique(MasterTraceList(config), Unique(AllTraces(config)));
  }

  /** No customer, or no site anywhere, gives the empty master list. */
  lemma MasterTraceListEmpty(config: Config)
    requires forall c :: 0 <= c < |config| ==> |config[c].sites| == 0
    ensures MasterTraceList(config) == []
  {
    var r := MasterTraceList(config);
    assert |r| > 0 ==> Mentions(config, r[0]);
  }

  /** One site listing t2, t1, t2 gives the master list [t1, t2]. */
  lemma MasterTraceListExample()
    ensures MasterTraceList([Customer("Acme", [Site("Site1", ["t2", "t1", "t2"])])]) == ["t1", "t2"]
  {
    var config := [Customer("Acme", [Site("Site1", ["t2", "t1", "t2"])])];
    assert AllTraces(config) == ["t2", "t1", "t2"];
    MasterTraceListIsUnique(config);
    assert Below("t1", "t2");
    assert StrictlyAscending(["t1", "t2"]);
    AscendingUnique(Unique(["t2", "t1", "t2"]), ["t1", "t2"]);
  }

  /** The loop of `get_max_num_sites` from a running maximum acc. */
  function MaxSitesFrom(acc: nat, config: Config): (m: nat)
    ensures acc <= m
    ensures forall c :: 0 <= c < |config| ==> |config[c].sites| <= m
    ensures m == acc || exists c :: 0 <= c < |config| && |config[c].sites| == m
    decreases |config|
  {
    if |config| == 0 then acc
    else
      var n := |config[0].sites|;
      var m := MaxSitesFrom(if acc < n then n else acc, config[1..]);
      assert forall c :: 1 <= c < |config| ==> config[c] == config[1..][c - 1];
      m
  }

  /**
   * `get_max_num_sites`: the largest number of sites of any one customer,
   * 0 for an empty configuration.
   */
  function MaxNumSites(config: Config): (m: nat)
    ensures forall c :: 0 <= c < |config| ==> |config[c].sites| <= m
    ensures |config| == 0 ==> m == 0
    ensures |config| > 0 ==> exists c :: 0 <= c < |config| && |config[c].sites| == m
  {
    MaxSitesFrom(0, config)
  }

  /** MaxNumSites is the least bound on the customers' site counts. */
  lemma MaxNumSitesLeast(config: Config, bound: nat)
    requires forall c :: 0 <= c < |config| ==> |config[c].sites| <= bound
    ensures MaxNumSites(config) <= bound
  {
  }
}

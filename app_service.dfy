/** AppService: read-only lookups over table `apps`, each a filter that
    includes `enable == enabled` (enabled apps by default), and the creation
    hook that delegates to AppValidator. */
module AppService {
  import opened Wrappers
  import opened Text
  import opened Tables
  import opened FieldRules
  import opened AppSchema
  import AppValidator

  function GetByCountryExtId(t: seq<App>, countryExtId: string, enabled: bool := true): (r: seq<AppRead>)
    ensures forall a :: multiset(r)[ToRead(a)]
                        == if a.countryExtId == countryExtId && a.enable == enabled then multiset(t)[a] else 0
    ensures forall x :: x in r ==> x.countryExtId == countryExtId && x.enable == enabled
  {
    Project(Where(t, (a: App) => a.countryExtId == countryExtId && a.enable == enabled), ToRead)
  }

  function GetByName(t: seq<App>, name: string, enabled: bool := true): (r: seq<AppRead>)
    ensures forall a :: multiset(r)[ToRead(a)]
                        == if a.name == name && a.enable == enabled then multiset(t)[a] else 0
    ensures forall x :: x in r ==> x.name == name && x.enable == enabled
  {
    Project(Where(t, (a: App) => a.name == name && a.enable == enabled), ToRead)
  }

  /** `name ILIKE '%<name>%'`: case-insensitive substring match. */
  function SearchByName(t: seq<App>, name: string, enabled: bool := true): (r: seq<AppRead>)
    ensures forall a :: multiset(r)[ToRead(a)]
                        == if (exists k :: OccursAt(Lower(a.name), Lower(name), k)) && a.enable == enabled
                           then multiset(t)[a] else 0
    ensures forall x :: x in r ==> ILikeSubstring(x.name, name) && x.enable == enabled
  {
    Project(Where(t, (a: App) => ILikeSubstring(a.name, name) && a.enable == enabled), ToRead)
  }

  function GetAll(t: seq<App>, enabled: bool := true): (r: seq<AppRead>)
    ensures forall a :: multiset(r)[ToRead(a)] == if a.enable == enabled then multiset(t)[a] else 0
    ensures forall x :: x in r ==> x.enable == enabled
  {
    Project(Where(t, (a: App) => a.enable == enabled), ToRead)
  }

  /** The creation hook is the validator's create check. */
  function ValidateCreate(t: seq<App>, c: AppCreate): (r: Check)
    ensures r == AppValidator.CreateValidate(t, c)
    ensures r == Pass <==> AppValidator.CreateAllowed(t, c)
  {
    AppValidator.CreateValidate(t, c)
  }

  /** The row a Read describes (a Read copies every column). */
  function RowOf(x: AppRead): (a: App)
    ensures ToRead(a) == x
  {
    App(x.id, x.name, x.countryExtId, x.enable, x.registeredAt, x.updatedAt)
  }

  /** An exact-name lookup never returns more than the search for that name. */
  lemma GetByNameWithinSearch(t: seq<App>, name: string, enabled: bool)
    ensures multiset(GetByName(t, name, enabled)) <= multiset(SearchByName(t, name, enabled))
  {
    ILikeReflexive(name);
    forall x
      ensures multiset(GetByName(t, name, enabled))[x] <= multiset(SearchByName(t, name, enabled))[x]
    {
      var a := RowOf(x);
    }
  }

  /** With apps "Test App" and "Other", searching "est" finds only "Test App". */
  lemma SearchIsCaseInsensitiveSubstring()
    ensures var test := App(1, "Test App", "1", true, None, None);
            var other := App(2, "Other", "1", true, None, None);
            SearchByName([test, other], "est") == [ToRead(test)]
  {
    var test := App(1, "Test App", "1", true, None, None);
    var other := App(2, "Other", "1", true, None, None);
    LowerSamples();
    assert ILikeSubstring(test.name, "est") by {
      assert "est" <= "test app"[1..];
    }
    assert !ILikeSubstring(other.name, "est") by {
      OtherLacksEst();
    }
    var keep := (a: App) => ILikeSubstring(a.name, "est") && a.enable == true;
    assert [test, other][1..] == [other];
    assert Where([other], keep) == [];
    assert Where([test, other], keep) == [test];
  }

  lemma LowerSamples()
    ensures Lower("est") == "est" && Lower("Test App") == "test app" && Lower("Other") == "other"
  {
  }

  lemma OtherLacksEst()
    ensures !Contains("other", "est")
  {
    assert !Contains("", "est");
    assert "r"[1..] == "" && !Contains("r", "est");
    assert "er"[1..] == "r" && !Contains("er", "est");
    assert "her"[0] != "est"[0];
    assert "her"[1..] == "er" && !Contains("her", "est");
    assert "ther"[1..] == "her" && !Contains("ther", "est");
    assert "other"[1..] == "ther";
  }
}

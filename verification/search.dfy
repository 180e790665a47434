/**
 * The search box of the applications list: the applications already loaded
 * for the current page are narrowed to those whose company or role contains
 * the query, ignoring case and surrounding whitespace.
 */
module Search {
  import opened Wrappers
  import opened Text

  /** The four stages of an application. */
  datatype Status = Applied | Interview | Offer | Rejected

  /** An application as the list receives it; company and role may arrive as null. */
  datatype Application = Application(
    id: int,
    company: Option<string>,
    role: Option<string>,
    status: Status,
    appliedDate: Option<string>)

  /** The query as compared: trimmed and lower-cased. */
  function Query(search: string): string {
    ToLower(JsTrim(search))
  }

  /** The lower-cased company or role (null read as "") contains q. */
  predicate Matches(a: Application, q: string) {
    Contains(ToLower(a.company.GetOr([])), q) || Contains(ToLower(a.role.GetOr([])), q)
  }

  /** The applications matching q, in their original order. */
  function KeepMatching(apps: seq<Application>, q: string): (r: seq<Application>)
    ensures forall a :: a in r <==> a in apps && Matches(a, q)
    ensures |r| <= |apps|
  {
    if apps == [] then []
    else (if Matches(apps[0], q) then [apps[0]] else []) + KeepMatching(apps[1..], q)
  }

  /** filteredApps: the whole list for a blank query, otherwise the matching applications. */
  function FilterApps(apps: seq<Application>, search: string): (r: seq<Application>)
    ensures Query(search) == [] ==> r == apps
    ensures Query(search) != [] ==> forall a :: a in r <==> a in apps && Matches(a, Query(search))
  {
    var q := Query(search);
    if q == [] then apps else KeepMatching(apps, q)
  }

  /** Filtering only deletes: the kept applications stay in their original order. */
  lemma {:induction false} KeepMatchingIsSubsequence(apps: seq<Application>, q: string)
    ensures IsSubsequence(KeepMatching(apps, q), apps)
  {
    if apps != [] {
      KeepMatchingIsSubsequence(apps[1..], q);
      var rest := KeepMatching(apps[1..], q);
      if Matches(apps[0], q) {
        assert KeepMatching(apps, q) == [apps[0]] + rest;
        assert ([apps[0]] + rest)[1..] == rest;
      } else {
        assert KeepMatching(apps, q) == rest;
      }
    }
  }

  /** The search result is always an order-preserving subsequence of the loaded list. */
  lemma FilterAppsIsSubsequence(apps: seq<Application>, search: string)
    ensures IsSubsequence(FilterApps(apps, search), apps)
  {
    if Query(search) == [] {
      SubsequenceOfSelf(apps);
    } else {
      KeepMatchingIsSubsequence(apps, Query(search));
    }
  }

  lemma {:induction false} KeepMatchingOfMatching(apps: seq<Application>, q: string)
    requires forall a :: a in apps ==> Matches(a, q)
    ensures KeepMatching(apps, q) == apps
  {
    if apps != [] {
      KeepMatchingOfMatching(apps[1..], q);
      assert [apps[0]] + apps[1..] == apps;
    }
  }

  /** Searching the search result again with the same query changes nothing. */
  lemma FilterAppsIdempotent(apps: seq<Application>, search: string)
    ensures FilterApps(FilterApps(apps, search), search) == FilterApps(apps, search)
  {
    if Query(search) != [] {
      KeepMatchingOfMatching(KeepMatching(apps, Query(search)), Query(search));
    }
  }
}

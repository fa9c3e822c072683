/** The read-only views over the snippet table: the search results, the
    user profile and the detail page. */
module Queries {
  import opened Outcomes
  import opened Text
  import opened Schema

  /** The four-way OR filter of the search view: the query occurs,
      ignoring case, in the title, in the description, in the name of one
      of the snippet's tags, or in the name of its language. A tag or
      language id that names no stored row contributes no name. */
  predicate Matches(s: Snippet, tagNames: map<TagId, string>, langNames: map<LangId, string>, q: string)
  {
    || IContains(s.title, q)
    || IContains(s.description, q)
    || (exists t :: t in s.tags && t in tagNames && IContains(tagNames[t], q))
    || (s.language.Some? && s.language.value in langNames && IContains(langNames[s.language.value], q))
  }

  /** The search results, as a set of snippet ids. */
  function Search(snippets: map<SnippetId, Snippet>, tagNames: map<TagId, string>,
                  langNames: map<LangId, string>, q: string): set<SnippetId>
  {
    set k | k in snippets && Matches(snippets[k], tagNames, langNames, q)
  }

  /** The empty query matches every snippet. */
  lemma SearchEmptyQuery(snippets: map<SnippetId, Snippet>, tagNames: map<TagId, string>,
                         langNames: map<LangId, string>)
    ensures Search(snippets, tagNames, langNames, "") == snippets.Keys
  {
    forall k | k in snippets
      ensures Matches(snippets[k], tagNames, langNames, "")
    {
      IContainsEmpty(snippets[k].title);
    }
  }

  /** Each of the four fields alone is enough for a snippet to be found:
      an exact occurrence of `q` in the title, the description, a tag's
      name or the language's name puts the snippet among the results. */
  lemma SearchFindsEachField(snippets: map<SnippetId, Snippet>, tagNames: map<TagId, string>,
                             langNames: map<LangId, string>, q: string, k: SnippetId)
    requires k in snippets
    ensures Contains(snippets[k].title, q) ==> k in Search(snippets, tagNames, langNames, q)
    ensures Contains(snippets[k].description, q) ==> k in Search(snippets, tagNames, langNames, q)
    ensures (forall t :: t in snippets[k].tags && t in tagNames && Contains(tagNames[t], q) ==>
               k in Search(snippets, tagNames, langNames, q))
    ensures var l := snippets[k].language;
      l.Some? && l.value in langNames && Contains(langNames[l.value], q) ==>
        k in Search(snippets, tagNames, langNames, q)
  {
    var s := snippets[k];
    if Contains(s.title, q) { IContainsExact(s.title, q); }
    if Contains(s.description, q) { IContainsExact(s.description, q); }
    forall t | t in s.tags && t in tagNames && Contains(tagNames[t], q)
      ensures k in Search(snippets, tagNames, langNames, q)
    {
      IContainsExact(tagNames[t], q);
    }
    if s.language.Some? && s.language.value in langNames && Contains(langNames[s.language.value], q) {
      IContainsExact(langNames[s.language.value], q);
    }
  }

  /** A snippet whose four fields all lack the query is not found. */
  lemma SearchMissesUnmatched(snippets: map<SnippetId, Snippet>, tagNames: map<TagId, string>,
                              langNames: map<LangId, string>, q: string, k: SnippetId)
    requires k in snippets
    requires !IContains(snippets[k].title, q) && !IContains(snippets[k].description, q)
    requires forall t :: t in snippets[k].tags && t in tagNames ==> !IContains(tagNames[t], q)
    requires snippets[k].language.Some? && snippets[k].language.value in langNames ==>
      !IContains(langNames[snippets[k].language.value], q)
    ensures k !in Search(snippets, tagNames, langNames, q)
  {
  }

  /** The case of the query does not change the results. */
  lemma SearchIgnoresCase(snippets: map<SnippetId, Snippet>, tagNames: map<TagId, string>,
                          langNames: map<LangId, string>, q: string)
    ensures Search(snippets, tagNames, langNames, q) == Search(snippets, tagNames, langNames, Lower(q))
  {
    LowerIdempotent(q);
  }

  /** A longer query finds no more: if `q` occurs in `q2`, every result
      for `q2` is a result for `q`. */
  lemma SearchNarrowing(snippets: map<SnippetId, Snippet>, tagNames: map<TagId, string>,
                        langNames: map<LangId, string>, q2: string, q: string)
    requires Contains(q2, q)
    ensures Search(snippets, tagNames, langNames, q2) <= Search(snippets, tagNames, langNames, q)
  {
    forall k | k in Search(snippets, tagNames, langNames, q2)
      ensures Matches(snippets[k], tagNames, langNames, q)
    {
      var s := snippets[k];
      if IContains(s.title, q2) {
        IContainsNarrowing(s.title, q2, q);
      } else if IContains(s.description, q2) {
        IContainsNarrowing(s.description, q2, q);
      } else if exists t :: t in s.tags && t in tagNames && IContains(tagNames[t], q2) {
        var t :| t in s.tags && t in tagNames && IContains(tagNames[t], q2);
        IContainsNarrowing(tagNames[t], q2, q);
      } else {
        IContainsNarrowing(langNames[s.language.value], q2, q);
      }
    }
  }

  /** `filter(user=u)`: the snippets listing `u` among their users. */
  function Members(snippets: map<SnippetId, Snippet>, u: UserId): set<SnippetId>
  {
    set k | k in snippets && u in snippets[k].users
  }

  /** The profile page: the union of the snippets listing `u` as a user and
      the snippets `u` authored, each snippet once. */
  function Profile(snippets: map<SnippetId, Snippet>, u: UserId): (r: set<SnippetId>)
    ensures forall k :: k in r <==> k in snippets && (u in snippets[k].users || snippets[k].author == u)
    ensures Authored(snippets, u) <= r
  {
    Members(snippets, u) + Authored(snippets, u)
  }

  /** The profile view: an anonymous request is sent to the login page;
      a logged-in caller gets the profile of their own snippets. */
  function ProfileView(snippets: map<SnippetId, Snippet>, caller: Option<UserId>): (r: Result<set<SnippetId>>)
    ensures r == Err(Unauthorized) <==> caller.None?
    ensures caller.Some? ==> r == Ok(Profile(snippets, caller.value))
    ensures caller.Some? ==> r.Ok? && forall k :: k in r.value <==>
      k in snippets && (caller.value in snippets[k].users || snippets[k].author == caller.value)
  {
    if caller.None? then Err(Unauthorized) else Ok(Profile(snippets, caller.value))
  }

  /** What the detail page shows. */
  datatype DetailPage = DetailPage(snippet: Snippet, users: set<UserId>, tags: set<TagId>, forks: nat)

  /** The detail page of snippet `id`: not found when absent; otherwise the
      snippet, its users, its tags and the number of its forks. */
  function Detail(snippets: map<SnippetId, Snippet>, id: SnippetId): (r: Result<DetailPage>)
    ensures r.Err? <==> id !in snippets
    ensures r.Err? ==> r.error == NotFound
    ensures r.Ok? ==>
      && r.value.snippet == snippets[id]
      && r.value.users == snippets[id].users
      && r.value.tags == snippets[id].tags
      && r.value.forks == |Forks(snippets, id)|
  {
    if id !in snippets then Err(NotFound)
    else
      var s := snippets[id];
      Ok(DetailPage(s, s.users, s.tags, |Forks(snippets, id)|))
  }

  /** The detail page of a language or a tag: its name, or not found. */
  function DetailNamed<K>(names: map<K, string>, id: K): (r: Result<string>)
    ensures r.Err? <==> id !in names
    ensures r.Err? ==> r.error == NotFound
    ensures r.Ok? ==> r.value == names[id]
  {
    if id in names then Ok(names[id]) else Err(NotFound)
  }

  /** After deleting `p`, its detail page is not found, and the detail page
      of every former fork of `p` shows it without a parent and otherwise as before. */
  lemma DetailAfterDelete(snippets: map<SnippetId, Snippet>, p: SnippetId)
    requires ParentsResolve(snippets)
    ensures Detail(Collected(snippets, {p}), p) == Err(NotFound)
    ensures forall k :: k in Forks(snippets, p) ==>
      && Detail(Collected(snippets, {p}), k).Ok?
      && Detail(Collected(snippets, {p}), k).value.snippet == snippets[k].(parent := None)
  {
    DeleteOrphansForks(snippets, p);
  }
}

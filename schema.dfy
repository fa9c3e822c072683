/** The snippet table and the two foreign keys added by migration 0011:
    `author` (required, CASCADE) and `parent` (nullable, SET_NULL, reverse
    name `forks`). */
module Schema {
  import opened Outcomes

  type UserId = nat
  type SnippetId = nat
  type TagId = nat
  type LangId = nat

  /** One snippet row with its two many-to-many sets. `author` is not an
      Option: the column is non-nullable, so every snippet has exactly one. */
  datatype Snippet = Snippet(
    title: string,
    description: string,
    body: string,
    language: Option<LangId>,
    author: UserId,
    parent: Option<SnippetId>,
    users: set<UserId>,
    tags: set<TagId>)

  /** Integrity of the `parent` foreign key: every parent names a stored
      snippet, and no snippet is its own parent. */
  predicate ParentsResolve(snippets: map<SnippetId, Snippet>)
  {
    forall k :: k in snippets && snippets[k].parent.Some? ==>
      snippets[k].parent.value in snippets && snippets[k].parent.value != k
  }

  /** The reverse relation `forks` of `parent`. */
  function Forks(snippets: map<SnippetId, Snippet>, p: SnippetId): set<SnippetId>
  {
    set k | k in snippets && snippets[k].parent == Some(p)
  }

  /** The snippets a user authored: the rows CASCADE removes with the user. */
  function Authored(snippets: map<SnippetId, Snippet>, u: UserId): set<SnippetId>
  {
    set k | k in snippets && snippets[k].author == u
  }

  /** The parent link a surviving row keeps once the rows in `gone` are deleted. */
  function ClearedParent(parent: Option<SnippetId>, gone: set<SnippetId>): Option<SnippetId>
  {
    if parent.Some? && parent.value in gone then None else parent
  }

  /** Deleting the rows in `gone`: they disappear, and every surviving row
      whose parent was deleted has its parent set to null (SET_NULL). */
  function Collected(snippets: map<SnippetId, Snippet>, gone: set<SnippetId>): (r: map<SnippetId, Snippet>)
    ensures r.Keys == snippets.Keys - gone
    ensures forall k :: k in r ==> r[k].(parent := snippets[k].parent) == snippets[k]
    ensures forall k :: k in r ==>
      (r[k].parent.None? <==> snippets[k].parent.None? || snippets[k].parent.value in gone)
    ensures forall k :: k in r && r[k].parent.Some? ==> r[k].parent == snippets[k].parent
  {
    map k | k in snippets && k !in gone :: snippets[k].(parent := ClearedParent(snippets[k].parent, gone))
  }

  /** Deleting user `u`: the snippets `u` authored are deleted (CASCADE),
      their forks lose their parent (SET_NULL), and `u` leaves every
      remaining `users` set (the join rows go with the user). */
  function WithoutUser(snippets: map<SnippetId, Snippet>, u: UserId): map<SnippetId, Snippet>
  {
    var rest := Collected(snippets, Authored(snippets, u));
    map k | k in rest :: rest[k].(users := rest[k].users - {u})
  }

  /** Deleting any set of rows keeps the parent links intact. */
  lemma CollectedPreservesIntegrity(snippets: map<SnippetId, Snippet>, gone: set<SnippetId>)
    requires ParentsResolve(snippets)
    ensures ParentsResolve(Collected(snippets, gone))
  {
  }

  /** Deleting `p` keeps every fork of `p`, with its parent cleared and
      everything else as it was; no fork of `p` is left. */
  lemma {:induction false} DeleteOrphansForks(snippets: map<SnippetId, Snippet>, p: SnippetId)
    requires ParentsResolve(snippets)
    ensures Forks(snippets, p) <= Collected(snippets, {p}).Keys
    ensures forall k :: k in Forks(snippets, p) ==>
      Collected(snippets, {p})[k] == snippets[k].(parent := None)
    ensures Forks(Collected(snippets, {p}), p) == {}
  {
    var r := Collected(snippets, {p});
    forall k | k in Forks(snippets, p)
      ensures k in r && r[k] == snippets[k].(parent := None)
    {
      assert snippets[k].parent == Some(p);
      assert k != p;
    }
  }

  /** Deleting `p` leaves the fork sets of other snippets as they were, less `p` itself. */
  lemma ForksAfterDelete(snippets: map<SnippetId, Snippet>, p: SnippetId, q: SnippetId)
    requires q != p
    ensures Forks(Collected(snippets, {p}), q) == Forks(snippets, q) - {p}
  {
  }

  /** Deleting user `u`: nothing `u` authored remains, `u` is in no `users`
      set, every snippet `u` did not author survives, and parent links stay intact. */
  lemma {:induction false} UserCascade(snippets: map<SnippetId, Snippet>, u: UserId)
    requires ParentsResolve(snippets)
    ensures var r := WithoutUser(snippets, u);
      && r.Keys == snippets.Keys - Authored(snippets, u)
      && (forall k :: k in r ==> r[k].author != u && u !in r[k].users)
      && (forall k :: k in r ==> r[k].users == snippets[k].users - {u})
      && ParentsResolve(r)
  {
    var gone := Authored(snippets, u);
    var rest := Collected(snippets, gone);
    CollectedPreservesIntegrity(snippets, gone);
    var r := WithoutUser(snippets, u);
    assert r.Keys == rest.Keys;
    forall k | k in r
      ensures r[k].author != u
    {
      assert k !in gone;
    }
  }
}

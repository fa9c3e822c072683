# Snippet store: ownership, forking and search

A model of the snippet-sharing application's core: the snippet table with
its `author` and `parent` foreign keys (migration
`snippets/migrations/0011_snippet_author_snippet_parent.py`) and the views of
`snippets/views.py` that read and change it.

- `outcomes.dfy` (module `Outcomes`): `Option`, the view failures
  `Unauthorized | NotFound | Forbidden` (login redirect, `Http404`,
  `PermissionDenied`) and `Result`.
- `text.dfy` (module `Text`): the `icontains` lookup, as ASCII lower-casing
  plus substring containment, with lemmas on containment (transitivity,
  lower-casing keeps occurrences, idempotence).
- `schema.dfy` (module `Schema`): the `Snippet` row (title, description,
  body, optional language, required author, optional parent, the `users` and
  `tags` sets), the parent-integrity predicate, the reverse relation `forks`,
  the SET_NULL delete step (`Collected`) and the CASCADE on user deletion
  (`WithoutUser`).
- `queries.dfy` (module `Queries`): the read-only views as functions: the
  four-way OR search, the profile union, the detail page with its fork count.
- `store.dfy` (module `Store`): class `SnippetStore`, whose fields are the
  snippet, tag and language tables and their next primary keys, with one
  method per mutating view. Every view method keeps `Valid()`: parents resolve,
  no snippet is its own parent, and a ghost set `Issued` of every snippet id
  ever handed out, so a new id is never one used before, even after deletion.

The caller of a view is an `Option<UserId>`; `None` is an anonymous request.
The checks run in the order the code runs them: `@login_required` first
(`Unauthorized`), then `get_object_or_404` (`NotFound`), then the author
check (`Forbidden`). Every failure leaves the store unchanged.

A fork copies every field of its source (title, description, body and
language included, because the code saves the same row with `pk = None`);
the forking user is not added to the fork's `users` unless already among the
source's users. The one deliberate departure from the code is the tags of a
newly created snippet: see "## Findings".

## Model

| member | source | states |
|---|---|---|
| Store.SnippetStore.Create | snippets/views.py:24-34 | anonymous caller: `Unauthorized`, store unchanged; otherwise a never-issued id holding a snippet authored by the caller, with no parent, the caller as its one user and the form's fields; nothing else changes |
| Store.SnippetStore.Edit | snippets/views.py:40-50 | `Unauthorized`, then `NotFound`, then `Forbidden` for a non-author, each leaving the store unchanged; the author's edit replaces only that snippet, by `Edited` |
| Store.SnippetStore.Delete | snippets/views.py:56-62 | same three failures; the author's delete leaves exactly `Collected(old, {id})`: that id gone, forks detached, every other field of every other snippet kept |
| Store.SnippetStore.Copy | snippets/views.py:65-79 | `Unauthorized` or `NotFound` with the store unchanged; otherwise a never-issued id holding `Forked(source, id, caller)`, every other snippet and both catalogues unchanged |
| Store.SnippetStore.AddUsers | snippets/views.py:75-76 | after the loop the row's users are its old users plus every snapshotted user; no other row or field changes |
| Store.SnippetStore.AddTags | snippets/views.py:77-78 | after the loop the row's tags are its old tags plus every snapshotted tag; no other row or field changes |
| Store.Listed | snippets/views.py:68-69 | the snapshot list holds exactly the members of the set, each once |
| Store.Forked | snippets/views.py:71-74 | the fork has the caller as author, the source as parent, and the source's title, description, body, language, users and tags; the caller is among its users exactly when among the source's |
| Store.NewSnippet | snippets/views.py:29-33 | a created snippet is authored by the caller, has no parent, has the caller as its only user and carries the form's fields, tags included |
| Store.Edited | snippets/views.py:46-49 | an edit replaces title, description, body, language and tags and keeps author, parent and users |
| Store.CreateAsWrittenDropsTags | snippets/views.py:28-33 | with a non-empty tag selection the code as written stores a different tag set, the corrected create stores the selection |
| Store.CreatePreservesIntegrity | snippets/migrations/0011_snippet_author_snippet_parent.py:21-25 | a parentless snippet under a fresh id keeps every parent link resolving |
| Store.EditPreservesIntegrity | snippets/views.py:46-49 | editing keeps every parent link resolving |
| Store.ForkPreservesIntegrity | snippets/views.py:71-74 | a fork under a fresh id keeps every parent link resolving and is not its own parent |
| Store.ForkCountAfterFork | snippets/views.py:73-74 | a fork raises its source's fork count by exactly one and leaves every other snippet's forks unchanged |
| Store.ForkInProfiles | snippets/views.py:184-185 | a fork appears on its maker's profile and on the profile of every user of the source |
| Store.CreateInProfile | snippets/views.py:30-32 | a new snippet appears on its creator's profile |
| Store.SnippetStore.RemoveUser | snippets/migrations/0011_snippet_author_snippet_parent.py:15-25 | deleting a user leaves exactly `WithoutUser(old, u)` and keeps the invariants |
| Store.SnippetStore.CreateLanguage | snippets/views.py:104-113 | `Unauthorized` when anonymous; otherwise a new id bound to the name, whose detail page then shows that name; the snippet table unchanged |
| Store.SnippetStore.EditLanguage | snippets/views.py:116-127 | `Unauthorized`, then `NotFound`; otherwise only that language's name changes, and its detail page shows the new name |
| Store.SnippetStore.DeleteLanguage | snippets/views.py:130-134 | `Unauthorized`, then `NotFound`; otherwise only that language is removed, and its detail page is then not found |
| Store.SnippetStore.CreateTag | snippets/views.py:148-157 | `Unauthorized` when anonymous; otherwise a new id bound to the name, whose detail page then shows that name; the snippet table unchanged |
| Store.SnippetStore.EditTag | snippets/views.py:160-171 | `Unauthorized`, then `NotFound`; otherwise only that tag's name changes, and its detail page shows the new name |
| Store.SnippetStore.DeleteTag | snippets/views.py:174-178 | `Unauthorized`, then `NotFound`; otherwise only that tag is removed, and its detail page is then not found |
| Schema.Collected | snippets/migrations/0011_snippet_author_snippet_parent.py:24 | deleting rows removes exactly those keys; survivors keep every field but the parent, which becomes null exactly when it pointed at a deleted row |
| Schema.CollectedPreservesIntegrity | snippets/migrations/0011_snippet_author_snippet_parent.py:24 | SET_NULL leaves no dangling and no self parent link |
| Schema.DeleteOrphansForks | snippets/migrations/0011_snippet_author_snippet_parent.py:24 | every fork of a deleted snippet survives with parent null and all else unchanged, and the deleted id has no forks left |
| Schema.ForksAfterDelete | snippets/migrations/0011_snippet_author_snippet_parent.py:24 | deleting `p` changes another snippet's forks only by dropping `p` |
| Schema.UserCascade | snippets/migrations/0011_snippet_author_snippet_parent.py:15-25 | deleting a user removes exactly the snippets the user authored, removes the user from every users set, and keeps parent links resolving |
| Queries.SearchEmptyQuery | snippets/views.py:87-89 | the empty query matches every snippet |
| Queries.SearchFindsEachField | snippets/views.py:88-89 | an occurrence in the title, the description, a tag name or the language name each alone puts the snippet in the results |
| Queries.SearchMissesUnmatched | snippets/views.py:88-89 | a snippet with the query in none of the four fields is not in the results |
| Queries.SearchIgnoresCase | snippets/views.py:88-89 | the results for a query and for its lower-cased form coincide |
| Queries.SearchNarrowing | snippets/views.py:88-89 | a query containing another finds a subset of what the shorter one finds |
| Queries.Profile | snippets/views.py:184-185 | the union of the two filters is exactly the snippets listing the user or authored by the user |
| Queries.ProfileView | snippets/views.py:182-185 | an anonymous request gets `Unauthorized`, and only it; a logged-in caller gets exactly the snippets listing them or authored by them |
| Store.DetailAfterFork | snippets/views.py:19-21 | after a fork, the source's detail page counts exactly one more fork |
| Queries.DetailAfterDelete | snippets/views.py:19-21 | after deleting `p`, its detail page is not found, and every former fork's page is still found, showing the fork without a parent and otherwise unchanged |
| Text.Lower | snippets/views.py:88-89 | lower-casing keeps the length, folds each character and leaves no ASCII capital |
| Text.ContainsAt | snippets/views.py:88-89 | an occurrence at any offset is a substring occurrence |
| Text.ContainsIffOccurs | snippets/views.py:88-89 | substring containment holds exactly when the pattern occurs at some offset |
| Text.ContainsTransitive | snippets/views.py:88-89 | substring containment is transitive |
| Text.LowerContains | snippets/views.py:88-89 | lower-casing both strings keeps every occurrence |
| Text.IContainsNarrowing | snippets/views.py:88-89 | a text matching a query matches every substring of it |
| Text.IContainsCaseless | snippets/views.py:88-89 | `icontains` does not depend on the query's case |

## Findings

| source | as written | input that shows it | evidently intended | confidence | as-written member | corrected member |
|---|---|---|---|---|---|---|
| snippets/views.py:29-33 | the form is saved with `commit=False` and `save_m2m()` is never called, so the tags chosen on the create form are never stored | a create request whose form selects at least one tag | the new snippet carries the chosen tags, as an edit through the same form does (line 48) | medium: rests on the snippet form including the tag field, and that form is not part of this model; not executed | Store.CreateAsWrittenDropsTags (on Store.CreatedAsWritten) | Store.SnippetStore.Create (through Store.NewSnippet) |

## Left out

- The list views (`list_snippet`, `list_language`, `list_tag`) return a whole table; in the model that is the map itself, and there is nothing to state beyond it.
- Rendering, templates, redirects and the GET branches that only show a form: they change no state.
- Form validation: validated fields are method inputs, and `ValidationError` is not modelled. The snippet form is assumed to carry no `user` field, so a created snippet's users are its author alone.
- Deleting a language: what it does to snippets naming that language depends on a foreign key declared outside this model. The model leaves those snippets as they are, and search ignores a language id with no stored name.
- Deleting a tag: the model does not remove the tag from snippets' tag sets, whereas the database drops a deleted tag's join rows. Search looks tag names up in the tag table, so a deleted tag matches nothing there, as in the code; but the `tags` of a detail page, and the tags a later fork copies, still list the deleted id, where the code would no longer show it.
- An absent `q` parameter (the framework fails on it); the query is a required string.
- Duplicate rows that the tag join can add to search results; results are sets.
- Unicode case folding and database collation; matching folds ASCII letters only.
- Transactions, the atomicity of the multi-write copy, and concurrent requests; every method is one atomic step.
- Authentication: the caller is given as an `Option<UserId>`. User deletion is a method without a caller.
- The second `get_object_or_404` in `copy_snippet` (line 73) fetches the same row within one step, so it always succeeds and is folded into the first.
- The URL table: `copy_snippet`, the search view, the tag views and the profile view are not routed, which does not change what the views do.
- Primary keys come from a per-table counter; database sequences that could be reset are not modelled.

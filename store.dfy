/** The snippet store and the views that change it: create, edit, delete
    and copy (fork) a snippet; create, edit and delete a language or a tag;
    and the deletion of a user, which the foreign keys propagate. */
module Store {
  import opened Outcomes
  import opened Schema
  import opened Queries

  /** The validated fields of a snippet form. */
  datatype SnippetForm = SnippetForm(
    title: string,
    description: string,
    body: string,
    language: Option<LangId>,
    tags: set<TagId>)

  /** The row `create_snippet` stores for `form`, with the form's tags kept:
      authored by `user`, without a parent, `user` its only user. */
  function NewSnippet(form: SnippetForm, user: UserId): (r: Snippet)
    ensures r.author == user && r.parent == None && r.users == {user}
    ensures r.title == form.title && r.description == form.description && r.body == form.body
    ensures r.language == form.language && r.tags == form.tags
  {
    Snippet(form.title, form.description, form.body, form.language, user, None, {user}, form.tags)
  }

  /** The row `create_snippet` stores as written: the form is saved with
      `commit=False` and its many-to-many data is never saved, so the
      snippet starts without tags whatever the form chose. */
  function CreatedAsWritten(form: SnippetForm, user: UserId): Snippet
  {
    Snippet(form.title, form.description, form.body, form.language, user, None, {user}, {})
  }

  /** Any tag chosen on the create form is lost as written, and kept by `NewSnippet`. */
  lemma CreateAsWrittenDropsTags(form: SnippetForm, user: UserId)
    requires form.tags != {}
    ensures CreatedAsWritten(form, user).tags != form.tags
    ensures NewSnippet(form, user).tags == form.tags
  {
  }

  /** The row after `edit_snippet` saves `form` over `s`: the form's fields
      replace the old ones; author, parent and users are kept. */
  function Edited(s: Snippet, form: SnippetForm): (r: Snippet)
    ensures r.author == s.author && r.parent == s.parent && r.users == s.users
    ensures r.title == form.title && r.description == form.description && r.body == form.body
    ensures r.language == form.language && r.tags == form.tags
  {
    s.(title := form.title, description := form.description, body := form.body,
       language := form.language, tags := form.tags)
  }

  /** The fork of `src` (stored under `id`) made by `user`: a copy of every
      field except the author, which is `user`, and the parent, which is `id`. */
  function Forked(src: Snippet, id: SnippetId, user: UserId): (r: Snippet)
    ensures r.author == user && r.parent == Some(id)
    ensures r.title == src.title && r.description == src.description && r.body == src.body
    ensures r.language == src.language
    ensures r.users == src.users && r.tags == src.tags
    ensures user in r.users <==> user in src.users
  {
    src.(author := user, parent := Some(id))
  }

  /** The snapshot of a many-to-many set taken before the copy: its members,
      each once, in whatever order the query returns them. */
  method Listed<T(==)>(s: set<T>) returns (xs: seq<T>)
    ensures forall x :: x in xs <==> x in s
    ensures |xs| == |s|
  {
    xs := [];
    var rest := s;
    while rest != {}
      invariant rest <= s
      invariant forall x :: x in xs <==> x in s && x !in rest
      invariant |xs| + |rest| == |s|
      decreases |rest|
    {
      var x :| x in rest;
      xs := xs + [x];
      rest := rest - {x};
    }
  }

  /** Storing a new snippet under a fresh id keeps the parent links intact. */
  lemma CreatePreservesIntegrity(snippets: map<SnippetId, Snippet>, n: SnippetId, form: SnippetForm, user: UserId)
    requires ParentsResolve(snippets) && n !in snippets
    ensures ParentsResolve(snippets[n := NewSnippet(form, user)])
  {
  }

  /** Editing keeps the parent links intact. */
  lemma EditPreservesIntegrity(snippets: map<SnippetId, Snippet>, id: SnippetId, form: SnippetForm)
    requires ParentsResolve(snippets) && id in snippets
    ensures ParentsResolve(snippets[id := Edited(snippets[id], form)])
  {
  }

  /** Storing a fork under a fresh id keeps the parent links intact: its
      parent exists and differs from the fork's own id. */
  lemma ForkPreservesIntegrity(snippets: map<SnippetId, Snippet>, id: SnippetId, n: SnippetId, user: UserId)
    requires ParentsResolve(snippets) && id in snippets && n !in snippets
    ensures ParentsResolve(snippets[n := Forked(snippets[id], id, user)])
  {
  }

  /** A fork adds exactly one to the fork count of its source and leaves
      every other snippet's forks as they were. */
  lemma {:induction false} ForkCountAfterFork(snippets: map<SnippetId, Snippet>, id: SnippetId, n: SnippetId, user: UserId, q: SnippetId)
    requires id in snippets && n !in snippets
    ensures |Forks(snippets[n := Forked(snippets[id], id, user)], id)| == |Forks(snippets, id)| + 1
    ensures q != id ==> Forks(snippets[n := Forked(snippets[id], id, user)], q) == Forks(snippets, q)
  {
    assert Forks(snippets[n := Forked(snippets[id], id, user)], id) == Forks(snippets, id) + {n};
  }

  /** The fork shows on the profile of the user who made it, and on the
      profile of every user of the source. */
  lemma ForkInProfiles(snippets: map<SnippetId, Snippet>, id: SnippetId, n: SnippetId, user: UserId, v: UserId)
    requires id in snippets
    ensures n in Profile(snippets[n := Forked(snippets[id], id, user)], user)
    ensures v in snippets[id].users ==> n in Profile(snippets[n := Forked(snippets[id], id, user)], v)
  {
  }

  /** After a fork, the source's detail page counts one more fork. */
  lemma DetailAfterFork(snippets: map<SnippetId, Snippet>, id: SnippetId, n: SnippetId, user: UserId)
    requires id in snippets && n !in snippets
    ensures Detail(snippets[n := Forked(snippets[id], id, user)], id).Ok?
    ensures Detail(snippets[n := Forked(snippets[id], id, user)], id).value.forks
      == Detail(snippets, id).value.forks + 1
  {
    ForkCountAfterFork(snippets, id, n, user, id);
  }

  /** A new snippet shows on its creator's profile. */
  lemma CreateInProfile(snippets: map<SnippetId, Snippet>, n: SnippetId, form: SnippetForm, user: UserId)
    ensures n in Profile(snippets[n := NewSnippet(form, user)], user)
  {
  }

  /** The in-memory store: the snippet table, the tag and language tables,
      and the next primary key of each table. */
  class SnippetStore {
    var snippets: map<SnippetId, Snippet>
    var tagNames: map<TagId, string>
    var langNames: map<LangId, string>
    var nextId: SnippetId
    var nextTagId: TagId
    var nextLangId: LangId
    /** Every snippet id handed out so far, deleted or not. */
    ghost var Issued: set<SnippetId>

    ghost predicate Valid()
      reads this
    {
      && ParentsResolve(snippets)
      && snippets.Keys <= Issued
      && (forall k :: k in Issued <==> 0 <= k < nextId)
      && (forall k :: k in tagNames ==> k < nextTagId)
      && (forall k :: k in langNames ==> k < nextLangId)
    }

    constructor ()
      ensures Valid()
      ensures snippets == map[] && tagNames == map[] && langNames == map[] && Issued == {}
    {
      snippets, tagNames, langNames := map[], map[], map[];
      nextId, nextTagId, nextLangId := 0, 0, 0;
      Issued := {};
    }

    /** `create_snippet`: store `form` as a new snippet authored by the caller. */
    method Create(caller: Option<UserId>, form: SnippetForm) returns (r: Result<SnippetId>)
      requires Valid()
      modifies this
      ensures Valid()
      ensures caller.None? ==> r == Err(Unauthorized) && unchanged(this)
      ensures caller.Some? ==>
        && r.Ok? && r.value !in old(Issued) && Issued == old(Issued) + {r.value}
        && snippets == old(snippets)[r.value := NewSnippet(form, caller.value)]
        && tagNames == old(tagNames) && langNames == old(langNames)
    {
      if caller.None? {
        return Err(Unauthorized);
      }
      var n := nextId;
      CreatePreservesIntegrity(snippets, n, form, caller.value);
      var row := NewSnippet(form, caller.value).(users := {});
      snippets := snippets[n := row];
      nextId, Issued := nextId + 1, Issued + {n};
      snippets := snippets[n := snippets[n].(users := snippets[n].users + {caller.value})];
      assert snippets[n] == NewSnippet(form, caller.value);
      r := Ok(n);
    }

    /** `edit_snippet`: only the author may save `form` over snippet `id`. */
    method Edit(caller: Option<UserId>, id: SnippetId, form: SnippetForm) returns (r: Result<()>)
      requires Valid()
      modifies this
      ensures Valid()
      ensures r.Err? ==> unchanged(this)
      ensures caller.None? ==> r == Err(Unauthorized)
      ensures caller.Some? && id !in old(snippets) ==> r == Err(NotFound)
      ensures caller.Some? && id in old(snippets) && caller.value != old(snippets)[id].author ==>
        r == Err(Forbidden)
      ensures caller.Some? && id in old(snippets) && caller.value == old(snippets)[id].author ==>
        && r == Ok(())
        && snippets == old(snippets)[id := Edited(old(snippets)[id], form)]
        && tagNames == old(tagNames) && langNames == old(langNames) && Issued == old(Issued)
    {
      if caller.None? {
        return Err(Unauthorized);
      }
      if id !in snippets {
        return Err(NotFound);
      }
      if caller.value != snippets[id].author {
        return Err(Forbidden);
      }
      EditPreservesIntegrity(snippets, id, form);
      snippets := snippets[id := Edited(snippets[id], form)];
      r := Ok(());
    }

    /** `delete_snippet`: only the author may delete snippet `id`; its forks
      survive with their parent cleared. */
    method Delete(caller: Option<UserId>, id: SnippetId) returns (r: Result<()>)
      requires Valid()
      modifies this
      ensures Valid()
      ensures r.Err? ==> unchanged(this)
      ensures caller.None? ==> r == Err(Unauthorized)
      ensures caller.Some? && id !in old(snippets) ==> r == Err(NotFound)
      ensures caller.Some? && id in old(snippets) && caller.value != old(snippets)[id].author ==>
        r == Err(Forbidden)
      ensures caller.Some? && id in old(snippets) && caller.value == old(snippets)[id].author ==>
        && r == Ok(())
        && snippets == Collected(old(snippets), {id})
        && tagNames == old(tagNames) && langNames == old(langNames) && Issued == old(Issued)
    {
      if caller.None? {
        return Err(Unauthorized);
      }
      if id !in snippets {
        return Err(NotFound);
      }
      if caller.value != snippets[id].author {
        return Err(Forbidden);
      }
      CollectedPreservesIntegrity(snippets, {id});
      snippets := Collected(snippets, {id});
      r := Ok(());
    }

    /** `copy_snippet`: any logged-in caller forks snippet `id`. The new row
      copies the source with the caller as author and the source as parent;
      the users and tags are snapshotted first and then added one by one. */
    method Copy(caller: Option<UserId>, id: SnippetId) returns (r: Result<SnippetId>)
      requires Valid()
      modifies this
      ensures Valid()
      ensures r.Err? ==> unchanged(this)
      ensures caller.None? ==> r == Err(Unauthorized)
      ensures caller.Some? && id !in old(snippets) ==> r == Err(NotFound)
      ensures caller.Some? && id in old(snippets) ==>
        && r.Ok? && r.value !in old(Issued) && Issued == old(Issued) + {r.value}
        && snippets == old(snippets)[r.value := Forked(old(snippets)[id], id, caller.value)]
        && tagNames == old(tagNames) && langNames == old(langNames)
    {
      if caller.None? {
        return Err(Unauthorized);
      }
      if id !in snippets {
        return Err(NotFound);
      }
      var src := snippets[id];
      var userOld := Listed(src.users);
      var tagOld := Listed(src.tags);
      var n := nextId;
      ForkPreservesIntegrity(snippets, id, n, caller.value);
      var fork := Forked(src, id, caller.value);
      var saved := fork.(users := {}, tags := {});
      snippets := snippets[n := saved];
      nextId, Issued := nextId + 1, Issued + {n};
      AddUsers(n, userOld);
      assert snippets[n].users == src.users;
      AddTags(n, tagOld);
      assert snippets[n].tags == src.tags;
      assert snippets[n] == fork;
      r := Ok(n);
    }

    /** The copy's first loop: each snapshotted user in `xs` is added to the
      users of stored row `n`, one at a time; nothing else changes. */
    method AddUsers(n: SnippetId, xs: seq<UserId>)
      requires n in snippets
      modifies this`snippets
      ensures n in snippets && snippets == old(snippets)[n := snippets[n]]
      ensures snippets[n] == old(snippets)[n].(users := snippets[n].users)
      ensures forall x :: x in snippets[n].users <==> x in old(snippets)[n].users || x in xs
    {
      var i := 0;
      while i < |xs|
        invariant 0 <= i <= |xs|
        invariant n in snippets && snippets == old(snippets)[n := snippets[n]]
        invariant snippets[n] == old(snippets)[n].(users := snippets[n].users)
        invariant forall x :: x in snippets[n].users <==> x in old(snippets)[n].users || x in xs[..i]
      {
        assert xs[..i + 1] == xs[..i] + [xs[i]];
        snippets := snippets[n := snippets[n].(users := snippets[n].users + {xs[i]})];
        i := i + 1;
      }
      assert xs[..i] == xs;
    }

    /** The copy's second loop: each snapshotted tag in `xs` is added to the
      tags of stored row `n`, one at a time; nothing else changes. */
    method AddTags(n: SnippetId, xs: seq<TagId>)
      requires n in snippets
      modifies this`snippets
      ensures n in snippets && snippets == old(snippets)[n := snippets[n]]
      ensures snippets[n] == old(snippets)[n].(tags := snippets[n].tags)
      ensures forall x :: x in snippets[n].tags <==> x in old(snippets)[n].tags || x in xs
    {
      var i := 0;
      while i < |xs|
        invariant 0 <= i <= |xs|
        invariant n in snippets && snippets == old(snippets)[n := snippets[n]]
        invariant snippets[n] == old(snippets)[n].(tags := snippets[n].tags)
        invariant forall x :: x in snippets[n].tags <==> x in old(snippets)[n].tags || x in xs[..i]
      {
        assert xs[..i + 1] == xs[..i] + [xs[i]];
        snippets := snippets[n := snippets[n].(tags := snippets[n].tags + {xs[i]})];
        i := i + 1;
      }
      assert xs[..i] == xs;
    }

    /** The authentication subsystem deletes user `u`: the foreign keys
      remove what `u` authored and detach the forks of those snippets. */
    method RemoveUser(u: UserId)
      requires Valid()
      modifies this
      ensures Valid()
      ensures snippets == WithoutUser(old(snippets), u)
      ensures tagNames == old(tagNames) && langNames == old(langNames) && Issued == old(Issued)
    {
      UserCascade(snippets, u);
      snippets := WithoutUser(snippets, u);
    }

    /** `create_language`: any logged-in caller adds a language. */
    method CreateLanguage(caller: Option<UserId>, name: string) returns (r: Result<LangId>)
      requires Valid()
      modifies this
      ensures Valid()
      ensures caller.None? ==> r == Err(Unauthorized) && unchanged(this)
      ensures caller.Some? ==>
        && r.Ok? && r.value !in old(langNames)
        && langNames == old(langNames)[r.value := name]
        && DetailNamed(langNames, r.value) == Ok(name)
        && snippets == old(snippets) && tagNames == old(tagNames) && Issued == old(Issued)
    {
      if caller.None? {
        return Err(Unauthorized);
      }
      var n := nextLangId;
      langNames := langNames[n := name];
      nextLangId := nextLangId + 1;
      r := Ok(n);
    }

    /** `edit_language`: any logged-in caller renames an existing language. */
    method EditLanguage(caller: Option<UserId>, id: LangId, name: string) returns (r: Result<()>)
      requires Valid()
      modifies this
      ensures Valid()
      ensures r.Err? ==> unchanged(this)
      ensures caller.None? ==> r == Err(Unauthorized)
      ensures caller.Some? && id !in old(langNames) ==> r == Err(NotFound)
      ensures caller.Some? && id in old(langNames) ==>
        && r == Ok(()) && langNames == old(langNames)[id := name]
        && DetailNamed(langNames, id) == Ok(name)
        && snippets == old(snippets) && tagNames == old(tagNames) && Issued == old(Issued)
    {
      if caller.None? {
        return Err(Unauthorized);
      }
      if id !in langNames {
        return Err(NotFound);
      }
      langNames := langNames[id := name];
      r := Ok(());
    }

    /** `delete_language`: any logged-in caller removes an existing language. */
    method DeleteLanguage(caller: Option<UserId>, id: LangId) returns (r: Result<()>)
      requires Valid()
      modifies this
      ensures Valid()
      ensures r.Err? ==> unchanged(this)
      ensures caller.None? ==> r == Err(Unauthorized)
      ensures caller.Some? && id !in old(langNames) ==> r == Err(NotFound)
      ensures caller.Some? && id in old(langNames) ==>
        && r == Ok(()) && langNames == old(langNames) - {id}
        && DetailNamed(langNames, id) == Err(NotFound)
        && snippets == old(snippets) && tagNames == old(tagNames) && Issued == old(Issued)
    {
      if caller.None? {
        return Err(Unauthorized);
      }
      if id !in langNames {
        return Err(NotFound);
      }
      langNames := langNames - {id};
      r := Ok(());
    }

    /** `create_tag`: any logged-in caller adds a tag. */
    method CreateTag(caller: Option<UserId>, name: string) returns (r: Result<TagId>)
      requires Valid()
      modifies this
      ensures Valid()
      ensures caller.None? ==> r == Err(Unauthorized) && unchanged(this)
      ensures caller.Some? ==>
        && r.Ok? && r.value !in old(tagNames)
        && tagNames == old(tagNames)[r.value := name]
        && DetailNamed(tagNames, r.value) == Ok(name)
        && snippets == old(snippets) && langNames == old(langNames) && Issued == old(Issued)
    {
      if caller.None? {
        return Err(Unauthorized);
      }
      var n := nextTagId;
      tagNames := tagNames[n := name];
      nextTagId := nextTagId + 1;
      r := Ok(n);
    }

    /** `edit_tag`: any logged-in caller renames an existing tag. */
    method EditTag(caller: Option<UserId>, id: TagId, name: string) returns (r: Result<()>)
      requires Valid()
      modifies this
      ensures Valid()
      ensures r.Err? ==> unchanged(this)
      ensures caller.None? ==> r == Err(Unauthorized)
      ensures caller.Some? && id !in old(tagNames) ==> r == Err(NotFound)
      ensures caller.Some? && id in old(tagNames) ==>
        && r == Ok(()) && tagNames == old(tagNames)[id := name]
        && DetailNamed(tagNames, id) == Ok(name)
        && snippets == old(snippets) && langNames == old(langNames) && Issued == old(Issued)
    {
      if caller.None? {
        return Err(Unauthorized);
      }
      if id !in tagNames {
        return Err(NotFound);
      }
      tagNames := tagNames[id := name];
      r := Ok(());
    }

    /** `delete_tag`: any logged-in caller removes an existing tag. */
    method DeleteTag(caller: Option<UserId>, id: TagId) returns (r: Result<()>)
      requires Valid()
      modifies this
      ensures Valid()
      ensures r.Err? ==> unchanged(this)
      ensures caller.None? ==> r == Err(Unauthorized)
      ensures caller.Some? && id !in old(tagNames) ==> r == Err(NotFound)
      ensures caller.Some? && id in old(tagNames) ==>
        && r == Ok(()) && tagNames == old(tagNames) - {id}
        && DetailNamed(tagNames, id) == Err(NotFound)
        && snippets == old(snippets) && langNames == old(langNames) && Issued == old(Issued)
    {
      if caller.None? {
        return Err(Unauthorized);
      }
      if id !in tagNames {
        return Err(NotFound);
      }
      tagNames := tagNames - {id};
      r := Ok(());
    }
  }
}

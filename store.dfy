/**
 * The document store as the pages see it: the `users` collection keyed by uid,
 * the `posts` collection, and each member's `scoreHistory` sub-collection.
 * Each method is one store call (`getDoc`, `updateDoc`, `setDoc`, `addDoc`,
 * `deleteDoc`); storage failures are not modelled.
 */
module Store {
  import opened Records
  import Seqs

  class Database {
    var users: map<string, User>
    var posts: seq<Post>
    var history: map<string, seq<HistoryEntry>>

    constructor ()
      ensures users == map[] && posts == [] && history == map[]
    {
      users, posts, history := map[], [], map[];
    }

    /** `getDoc(doc(db, "users", uid))`: the record, if the document exists. */
    method GetUser(uid: string) returns (u: Option<User>)
      ensures u.Some? <==> uid in users
      ensures u.Some? ==> u.value == users[uid]
    {
      if uid in users {
        u := Some(users[uid]);
      } else {
        u := None;
      }
    }

    /** `updateDoc` on a member record: fails, changing nothing, when the document does not exist. */
    method UpdateUser(uid: string, u: User) returns (ok: bool)
      modifies this
      ensures ok <==> uid in old(users)
      ensures users == if ok then old(users)[uid := u] else old(users)
      ensures posts == old(posts) && history == old(history)
    {
      ok := uid in users;
      if ok {
        users := users[uid := u];
      }
    }

    /** `setDoc` on a member record: creates or replaces it. */
    method SetUser(uid: string, u: User)
      modifies this
      ensures users == old(users)[uid := u]
      ensures posts == old(posts) && history == old(history)
    {
      users := users[uid := u];
    }

    /** `addDoc(collection(db, "posts"), …)`. */
    method AddPost(p: Post)
      modifies this
      ensures posts == old(posts) + [p]
      ensures users == old(users) && history == old(history)
    {
      posts := posts + [p];
    }

    /** `deleteDoc(doc(db, "posts", id))`. */
    method DeletePost(id: string)
      modifies this
      ensures posts == WithoutPost(old(posts), id)
      ensures users == old(users) && history == old(history)
    {
      posts := WithoutPost(posts, id);
    }

    /** `updateDoc(doc(db, "posts", id), { content })`: fails, changing nothing,
        when no post has that id. */
    method SetPostContent(id: string, content: string) returns (ok: bool)
      modifies this
      ensures ok <==> HasPost(old(posts), id)
      ensures posts == if ok then WithContent(old(posts), id, content) else old(posts)
      ensures users == old(users) && history == old(history)
    {
      ok := HasPost(posts, id);
      if ok {
        posts := WithContent(posts, id, content);
      }
    }

    /** `addDoc(collection(db, "users", uid, "scoreHistory"), e)`. */
    method AppendHistory(uid: string, e: HistoryEntry)
      modifies this
      ensures history == AppendEntry(old(history), uid, e)
      ensures users == old(users) && posts == old(posts)
    {
      history := AppendEntry(history, uid, e);
    }
  }

  predicate HasPost(posts: seq<Post>, id: string) {
    exists i :: 0 <= i < |posts| && posts[i].id == id
  }

  /** `posts.filter(p => p.id !== id)`. */
  function WithoutPost(posts: seq<Post>, id: string): (r: seq<Post>)
    ensures forall p :: p in r <==> p in posts && p.id != id
    ensures !HasPost(r, id)
    ensures Seqs.IsSubsequence(r, posts)
    ensures !HasPost(posts, id) ==> r == posts
  {
    var r := Seqs.Filter(posts, (p: Post) => p.id != id);
    assert !HasPost(posts, id) ==> r == posts by {
      if !HasPost(posts, id) {
        Seqs.FilterAll(posts, (p: Post) => p.id != id);
      }
    }
    r
  }

  /** The posts with the content of every post with that id replaced. */
  function WithContent(posts: seq<Post>, id: string, content: string): (r: seq<Post>)
    ensures |r| == |posts|
    ensures forall i :: 0 <= i < |posts| ==> r[i].(content := posts[i].content) == posts[i]
    ensures forall i :: 0 <= i < |posts| ==> r[i].content == if posts[i].id == id then content else posts[i].content
  {
    seq(|posts|, i requires 0 <= i < |posts| =>
      if posts[i].id == id then posts[i].(content := content) else posts[i])
  }
}

/**
 * The GitLab and GitHub records the migration reads and writes. Merge
 * requests and labels are objects whose fields the migration updates in
 * place; everything else is a value.
 */
module Entities {
  import opened Wrappers

  datatype User = User(username: string)

  /** Diff position of an inline comment; a line of 0 or a path of "" stands for a missing (falsy) value. */
  datatype Position = Position(
    baseSha: string,
    headSha: string,
    newLine: nat,
    newPath: string,
    oldLine: nat,
    oldPath: string)

  /** What `addMigrationLine` reads of the item it annotates. */
  datatype Origin = Origin(username: Option<string>, createdAt: Option<string>, position: Option<Position>)

  /** What the conversion helpers read of an issue or a merge request. */
  datatype Item = Item(
    state: string,
    description: Option<string>,
    labels: Option<seq<string>>,
    assignees: Option<seq<User>>,
    milestoneTitle: Option<string>)

  /** A GitLab issue, or a placeholder or replacement issue built by the migration. */
  datatype Issue = Issue(
    iid: int,
    title: string,
    description: Option<string>,
    state: string,
    author: Option<User>,
    createdAt: Option<string>,
    updatedAt: Option<string>,
    labels: Option<seq<string>>,
    assignees: Option<seq<User>>,
    milestoneTitle: Option<string>,
    isPlaceholder: bool)
  {
    function AsItem(): Item {
      Item(state, description, labels, assignees, milestoneTitle)
    }

    function AsOrigin(): Origin {
      Origin(if author.Some? then Some(author.value.username) else None, createdAt, None)
    }
  }

  datatype Note = Note(id: int, body: string, author: User, createdAt: Option<string>, position: Option<Position>)
  {
    function AsOrigin(): Origin {
      Origin(Some(author.username), createdAt, position)
    }
  }

  datatype Milestone = Milestone(
    id: int,
    title: string,
    description: string,
    state: string,
    dueDate: Option<string>,
    createdAt: Option<string>,
    updatedAt: Option<string>)

  /** A GitHub milestone as kept in the milestone map. */
  datatype SimpleMilestone = SimpleMilestone(number: int, title: string)

  /** A GitHub issue or pull request, as far as the migration inspects it. */
  datatype GithubIssue = GithubIssue(number: int, title: string, state: string)

  /** A comment handed to the issue import API. */
  datatype Comment = Comment(createdAt: Option<string>, body: string)

  class MergeRequest {
    const iid: int
    const title: string
    const description: Option<string>
    const sourceBranch: string
    const targetBranch: string
    const author: Option<User>
    const createdAt: Option<string>
    const updatedAt: Option<string>
    const assignees: Option<seq<User>>
    const milestoneTitle: Option<string>
    var state: string
    var labels: Option<seq<string>>

    constructor(iid: int, title: string, description: Option<string>, sourceBranch: string,
                targetBranch: string, author: Option<User>, createdAt: Option<string>,
                updatedAt: Option<string>, assignees: Option<seq<User>>,
                milestoneTitle: Option<string>, state: string, labels: Option<seq<string>>)
      ensures this.iid == iid && this.title == title && this.description == description
      ensures this.sourceBranch == sourceBranch && this.targetBranch == targetBranch
      ensures this.author == author && this.createdAt == createdAt && this.updatedAt == updatedAt
      ensures this.assignees == assignees && this.milestoneTitle == milestoneTitle
      ensures this.state == state && this.labels == labels
    {
      this.iid := iid;
      this.title := title;
      this.description := description;
      this.sourceBranch := sourceBranch;
      this.targetBranch := targetBranch;
      this.author := author;
      this.createdAt := createdAt;
      this.updatedAt := updatedAt;
      this.assignees := assignees;
      this.milestoneTitle := milestoneTitle;
      this.state := state;
      this.labels := labels;
    }

    function AsItem(): Item
      reads this
    {
      Item(state, description, labels, assignees, milestoneTitle)
    }

    function AsOrigin(): Origin {
      Origin(if author.Some? then Some(author.value.username) else None, createdAt, None)
    }
  }

  /** A GitLab label, or one of the extra labels the migration adds. */
  class Label {
    var name: string
    const color: string
    const description: Option<string>

    constructor(name: string, color: string, description: Option<string>)
      ensures this.name == name && this.color == color && this.description == description
    {
      this.name := name;
      this.color := color;
      this.description := description;
    }
  }
}

/**
 * The helper's `Map<number, SimpleMilestone>`: entries in insertion order,
 * keys distinct.
 */
module Milestones {
  import opened Wrappers
  import opened Config
  import opened Entities

  type MilestoneMap = seq<(int, SimpleMilestone)>

  predicate KeysDistinct(mm: MilestoneMap) {
    forall i, j | 0 <= i < j < |mm| :: mm[i].0 != mm[j].0
  }

  /** `map.set(n, m)`: overwrites in place when `n` is present, appends otherwise. */
  function Set(mm: MilestoneMap, n: int, m: SimpleMilestone): MilestoneMap {
    if mm == [] then [(n, m)]
    else if mm[0].0 == n then [(n, m)] + mm[1..]
    else [mm[0]] + Set(mm[1..], n, m)
  }

  /** After `set`, `n` gives `m`, every other key what it gave before, and no new key but `n` appears. */
  lemma SetSpec(mm: MilestoneMap, n: int, m: SimpleMilestone)
    ensures Lookup(Set(mm, n, m), n) == Some(m)
    ensures forall k | k != n :: Lookup(Set(mm, n, m), k) == Lookup(mm, k)
    ensures forall i | 0 <= i < |Set(mm, n, m)| :: Set(mm, n, m)[i].0 == n || exists j | 0 <= j < |mm| :: mm[j].0 == Set(mm, n, m)[i].0
    ensures KeysDistinct(mm) ==> KeysDistinct(Set(mm, n, m))
  {
    SetGet(mm, n, m);
    SetKeys(mm, n, m);
  }

  /** What `get` gives after `set`. */
  lemma {:induction false} SetGet(mm: MilestoneMap, n: int, m: SimpleMilestone)
    ensures Lookup(Set(mm, n, m), n) == Some(m)
    ensures forall k | k != n :: Lookup(Set(mm, n, m), k) == Lookup(mm, k)
  {
    var r := Set(mm, n, m);
    if mm == [] {
    } else if mm[0].0 == n {
      assert r[1..] == mm[1..];
    } else {
      var rest := Set(mm[1..], n, m);
      SetGet(mm[1..], n, m);
      assert r[1..] == rest;
    }
  }

  /** Each key after `set` is `n` or an old key, and old keys appear at most once each. */
  lemma {:induction false} SetKeys(mm: MilestoneMap, n: int, m: SimpleMilestone)
    ensures forall i | 0 <= i < |Set(mm, n, m)| :: Set(mm, n, m)[i].0 == n || exists j | 0 <= j < |mm| :: mm[j].0 == Set(mm, n, m)[i].0
    ensures KeysDistinct(mm) ==> KeysDistinct(Set(mm, n, m))
  {
    var r := Set(mm, n, m);
    if mm == [] {
    } else if mm[0].0 == n {
      assert forall i | 1 <= i < |mm| :: r[i] == mm[i];
    } else {
      var rest := Set(mm[1..], n, m);
      SetKeys(mm[1..], n, m);
      assert r == [mm[0]] + rest;
      assert forall j | 0 <= j < |mm[1..]| :: mm[1..][j] == mm[j + 1];
      assert forall i | 1 <= i < |r| :: r[i] == rest[i - 1];
    }
  }

  /** The first milestone, in map order, with exactly this title. */
  function FirstWithTitle(mm: MilestoneMap, title: string): (r: Option<SimpleMilestone>)
    ensures r.Some? ==> r.value.title == title && exists i | 0 <= i < |mm| :: mm[i].1 == r.value
    ensures r.Some? ==> exists i | 0 <= i < |mm| ::
      mm[i].1 == r.value && forall k | 0 <= k < i :: mm[k].1.title != title
    ensures r.None? <==> forall i | 0 <= i < |mm| :: mm[i].1.title != title
  {
    if mm == [] then None
    else if mm[0].1.title == title then Some(mm[0].1)
    else
      var r := FirstWithTitle(mm[1..], title);
      assert forall i | 1 <= i < |mm| :: mm[i] == mm[1..][i - 1];
      r
  }
}

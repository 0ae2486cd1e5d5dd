/** The local project store of src/utils/projectStorage.ts. Browser storage
    holds two lists under two keys: the projects, and a lighter metadata
    entry per project for listings. Both are modelled as sequence fields of
    one store object; reading a key is reading the field and writing it back
    is assigning the field. */
module ProjectStorage {
  import opened Types
  import Lists

  /** The metadata entry `updateMetadata` builds for a project. */
  function MetadataOf(p: Project): ProjectMetadata
  {
    ProjectMetadata(p.id, p.name, p.description, p.createdAt, p.lastModified, |p.files|)
  }

  /** The two lists agree position by position: the metadata entry at each
      position is the one built from the project at that position. */
  predicate Aligned(ps: seq<Project>, ms: seq<ProjectMetadata>)
  {
    |ps| == |ms| && forall i :: 0 <= i < |ps| ==> ms[i] == MetadataOf(ps[i])
  }

  /** The two lists hold the same set of ids. */
  predicate SameIds(ps: seq<Project>, ms: seq<ProjectMetadata>)
  {
    Lists.Keys(ps, ProjectId) == Lists.Keys(ms, MetadataId)
  }

  /** Aligned lists hold the same ids. */
  lemma AlignedSameIds(ps: seq<Project>, ms: seq<ProjectMetadata>)
    requires Aligned(ps, ms)
    ensures SameIds(ps, ms)
  {
    forall k | k in Lists.Keys(ps, ProjectId) ensures k in Lists.Keys(ms, MetadataId) {
      var p :| p in ps && p.id == k;
      var i :| 0 <= i < |ps| && ps[i] == p;
      assert ms[i] in ms;
    }
    forall k | k in Lists.Keys(ms, MetadataId) ensures k in Lists.Keys(ps, ProjectId) {
      var m :| m in ms && m.id == k;
      var i :| 0 <= i < |ms| && ms[i] == m;
      assert ps[i] in ps;
    }
  }

  /** In aligned lists, `findIndex` by id finds the same position in both. */
  lemma {:induction false} AlignedIndexOf(ps: seq<Project>, ms: seq<ProjectMetadata>, k: string)
    requires Aligned(ps, ms)
    ensures Lists.IndexOf(ms, MetadataId, k) == Lists.IndexOf(ps, ProjectId, k)
  {
    if |ps| > 0 {
      assert Aligned(ps[1..], ms[1..]);
      AlignedIndexOf(ps[1..], ms[1..], k);
    }
  }

  /** Upserting a project and its metadata entry keeps the lists aligned. */
  lemma SaveKeepsAligned(ps: seq<Project>, ms: seq<ProjectMetadata>, p: Project)
    requires Aligned(ps, ms)
    ensures Aligned(Lists.Upsert(ps, ProjectId, p), Lists.Upsert(ms, MetadataId, MetadataOf(p)))
  {
    AlignedIndexOf(ps, ms, p.id);
  }

  /** Filtering out one id from both lists keeps them aligned. */
  lemma {:induction false} DeleteKeepsAligned(ps: seq<Project>, ms: seq<ProjectMetadata>, k: string)
    requires Aligned(ps, ms)
    ensures Aligned(Lists.Remove(ps, ProjectId, k), Lists.Remove(ms, MetadataId, k))
  {
    if |ps| > 0 {
      assert Aligned(ps[1..], ms[1..]);
      DeleteKeepsAligned(ps[1..], ms[1..], k);
    }
  }

  /** A save adds the saved id to both lists' ids, so lists with the same ids
      still have the same ids afterwards (whether or not they are aligned). */
  lemma SaveKeepsIds(ps: seq<Project>, ms: seq<ProjectMetadata>, p: Project)
    requires SameIds(ps, ms)
    ensures SameIds(Lists.Upsert(ps, ProjectId, p), Lists.Upsert(ms, MetadataId, MetadataOf(p)))
  {
    Lists.UpsertKeys(ps, ProjectId, p);
    Lists.UpsertKeys(ms, MetadataId, MetadataOf(p));
  }

  /** A delete removes the id from both lists' ids and nothing else. */
  lemma DeleteKeepsIds(ps: seq<Project>, ms: seq<ProjectMetadata>, k: string)
    requires SameIds(ps, ms)
    ensures SameIds(Lists.Remove(ps, ProjectId, k), Lists.Remove(ms, MetadataId, k))
  {
    Lists.RemoveKeys(ps, ProjectId, k);
    Lists.RemoveKeys(ms, MetadataId, k);
  }

  /** Saving the same project twice leaves both lists as one save does. */
  lemma SaveIdempotent(ps: seq<Project>, ms: seq<ProjectMetadata>, p: Project)
    ensures var ps1 := Lists.Upsert(ps, ProjectId, p);
            var ms1 := Lists.Upsert(ms, MetadataId, MetadataOf(p));
            Lists.Upsert(ps1, ProjectId, p) == ps1 && Lists.Upsert(ms1, MetadataId, MetadataOf(p)) == ms1
  {
    Lists.UpsertIdempotent(ps, ProjectId, p);
    Lists.UpsertIdempotent(ms, MetadataId, MetadataOf(p));
  }

  /** A project deleted and then saved again does not get its old place
      back: it is pushed after every remaining project. */
  lemma ResaveAfterDeleteMovesToEnd(ps: seq<Project>, p: Project)
    ensures var rest := Lists.Remove(ps, ProjectId, p.id);
            Lists.Upsert(rest, ProjectId, p) == rest + [p]
  {
    Lists.RemoveKeys(ps, ProjectId, p.id);
    Lists.UpsertAppends(Lists.Remove(ps, ProjectId, p.id), ProjectId, p);
  }

  /** After a save, the metadata entry found for the project's id carries the
      project's id, name, description and timestamps, and its file count. */
  lemma SavedMetadata(ms: seq<ProjectMetadata>, p: Project)
    ensures var m := Lists.Find(Lists.Upsert(ms, MetadataId, MetadataOf(p)), MetadataId, p.id);
            && m.Some?
            && m.value.id == p.id && m.value.name == p.name && m.value.description == p.description
            && m.value.createdAt == p.createdAt && m.value.lastModified == p.lastModified
            && m.value.fileCount == |p.files|
  {
    Lists.UpsertThenFind(ms, MetadataId, MetadataOf(p));
  }

  /** The store: the two lists kept under the projects key and the metadata
      key. */
  class ProjectStore {
    var projects: seq<Project>
    var metadata: seq<ProjectMetadata>

    /** Both keys unset: both lists read as empty. */
    constructor ()
      ensures projects == [] && metadata == []
      ensures Aligned(projects, metadata)
    {
      projects := [];
      metadata := [];
    }

    /** `getProject`: the first project with the id, or none. */
    function GetProject(id: string): (r: Option<Project>)
      reads this
      ensures r.Some? <==> id in Lists.Keys(projects, ProjectId)
      ensures r.Some? ==> r.value in projects && r.value.id == id
      ensures r.Some? ==> exists i :: 0 <= i < |projects| && projects[i] == r.value &&
                                      forall j :: 0 <= j < i ==> projects[j].id != id
    {
      var r := Lists.Find(projects, ProjectId, id);
      Lists.FindAtIndexOf(projects, ProjectId, id);
      r
    }

    /** `getAllMetadata`: the metadata list, unsorted, in insertion order: a
        re-saved id keeps its place, while a project deleted and saved again
        moves to the end. When the lists agree on ids, it lists exactly the
        stored projects' ids. */
    function GetAllMetadata(): (r: seq<ProjectMetadata>)
      reads this
      ensures SameIds(projects, metadata) ==> Lists.Keys(r, MetadataId) == Lists.Keys(projects, ProjectId)
      ensures Aligned(projects, metadata) ==>
                |r| == |projects| && forall i :: 0 <= i < |r| ==> r[i].fileCount == |projects[i].files|
    {
      metadata
    }

    /** `updateMetadata`: overwrite the first entry with the project's id by
        its fresh metadata, or push one when there is none. */
    method UpdateMetadata(p: Project)
      modifies this
      ensures metadata == Lists.Upsert(old(metadata), MetadataId, MetadataOf(p))
      ensures projects == old(projects)
    {
      var existingIndex := Lists.IndexOf(metadata, MetadataId, p.id);
      var projectMetadata := MetadataOf(p);
      if existingIndex >= 0 {
        metadata := metadata[existingIndex := projectMetadata];
      } else {
        metadata := metadata + [projectMetadata];
      }
    }

    /** `saveProject`: overwrite the first project with the same id in place,
        or push the project at the end, then update the metadata. */
    method SaveProject(p: Project)
      modifies this
      ensures projects == Lists.Upsert(old(projects), ProjectId, p)
      ensures metadata == Lists.Upsert(old(metadata), MetadataId, MetadataOf(p))
      ensures GetProject(p.id) == Some(p)
      ensures old(Aligned(projects, metadata)) ==> Aligned(projects, metadata)
      ensures old(SameIds(projects, metadata)) ==> SameIds(projects, metadata)
    {
      var existingIndex := Lists.IndexOf(projects, ProjectId, p.id);
      if existingIndex >= 0 {
        projects := projects[existingIndex := p];
      } else {
        projects := projects + [p];
      }
      UpdateMetadata(p);
      Lists.UpsertThenFind(old(projects), ProjectId, p);
      if old(Aligned(projects, metadata)) {
        SaveKeepsAligned(old(projects), old(metadata), p);
      }
      if old(SameIds(projects, metadata)) {
        SaveKeepsIds(old(projects), old(metadata), p);
      }
    }

    /** `deleteProject`: drop every project and every metadata entry with the
        id, keeping the others in order. An absent id changes nothing. */
    method DeleteProject(id: string)
      modifies this
      ensures projects == Lists.Remove(old(projects), ProjectId, id)
      ensures metadata == Lists.Remove(old(metadata), MetadataId, id)
      ensures GetProject(id) == None
      ensures id !in old(Lists.Keys(projects, ProjectId)) ==> projects == old(projects)
      ensures id !in old(Lists.Keys(metadata, MetadataId)) ==> metadata == old(metadata)
      ensures old(Aligned(projects, metadata)) ==> Aligned(projects, metadata)
      ensures old(SameIds(projects, metadata)) ==> SameIds(projects, metadata)
    {
      ghost var ps, ms := projects, metadata;
      projects := Lists.Remove(projects, ProjectId, id);
      metadata := Lists.Remove(metadata, MetadataId, id);
      if id !in Lists.Keys(ps, ProjectId) {
        Lists.RemoveAbsent(ps, ProjectId, id);
      }
      if id !in Lists.Keys(ms, MetadataId) {
        Lists.RemoveAbsent(ms, MetadataId, id);
      }
      if Aligned(ps, ms) {
        DeleteKeepsAligned(ps, ms, id);
      }
      if SameIds(ps, ms) {
        DeleteKeepsIds(ps, ms, id);
      }
    }
  }
}

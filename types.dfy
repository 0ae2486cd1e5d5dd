/** The records of the editor (src/types/project.ts): a file, a project made of
    files, and the lighter metadata view of a project used for listings.
    Timestamps are instants given as natural numbers; ids are strings that the
    caller generates. */
module Types {

  datatype Option<+T> = None | Some(value: T)

  datatype File = File(
    id: string,
    name: string,
    content: string,
    fileType: string,
    lastModified: nat)

  datatype Project = Project(
    id: string,
    name: string,
    description: Option<string>,
    files: seq<File>,
    createdAt: nat,
    lastModified: nat,
    mainFile: Option<string>)

  datatype ProjectMetadata = ProjectMetadata(
    id: string,
    name: string,
    description: Option<string>,
    createdAt: nat,
    lastModified: nat,
    fileCount: nat)

  /** Key functions, used wherever a list of records is searched by id. */
  function FileId(f: File): string { f.id }
  function ProjectId(p: Project): string { p.id }
  function MetadataId(m: ProjectMetadata): string { m.id }
}

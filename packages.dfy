/** The records the AUR RPC interface returns and the fixed category table. */
module Packages {

  /** One package entry of an RPC response. `OutOfDate` is the 0/1 integer
      the server sends; the two times are seconds since the Unix epoch (the
      `time.Time` a `timeUnmarshaler` holds, reduced to its Unix value). */
  datatype Package = Package(
    Maintainer: string,
    ID: int,
    Name: string,
    Version: string,
    CategoryID: int,
    Description: string,
    URL: string,
    License: string,
    NumVotes: int,
    OutOfDate: int,
    FirstSubmitted: int,
    LastModified: int,
    URLPath: string)

  /** The decoded JSON envelope of an RPC reply. */
  datatype Response = Response(Type: string, Count: int, Results: seq<Package>)

  /** A Go `error`, reduced to its message. */
  datatype Error = Error(message: string)

  /** The category names, indexed by `CategoryID`; index 0 is the empty
      string the slice literal leaves there. */
  const Categories: seq<string> := [
    "", "none", "daemons", "devel", "editors", "emulators", "games", "gnome",
    "18n", "kde", "lib", "modules", "multimedia", "network", "office",
    "science", "system", "x11", "xfce", "kernels", "fonts"]

  predicate ValidCategory(id: int) {
    0 <= id < |Categories|
  }

  /** `categories[id]`; an index outside the table is a panic in the
      program and a precondition here. */
  function CategoryName(id: int): (name: string)
    requires ValidCategory(id)
    ensures id == 0 <==> name == ""
    ensures forall j :: 0 <= j < |Categories| && j != id ==> Categories[j] != name
  {
    Categories[id]
  }

  /** No two records share a name, as the service guarantees for one reply. */
  ghost predicate UniqueNames(s: seq<Package>) {
    forall i, j :: 0 <= i < j < |s| ==> s[i].Name != s[j].Name
  }
}

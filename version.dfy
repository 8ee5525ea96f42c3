/** The immutable three-part version record of bumpv/client/versioning/version.py:
    lookup by attribute name, a fixed length of three, iteration over the part
    names, and bumping, which always builds a fresh record. */
module Version {
  import opened Wrappers

  datatype Version = Version(
    major: int,
    minor: int,
    patch: int,
    release: Option<string>,
    original: Option<string>)

  /** `Version(major, minor, patch)`: no release and no original. */
  function Make(major: int, minor: int, patch: int): (v: Version)
    ensures v.release == None && v.original == None
    ensures (v.major, v.minor, v.patch) == (major, minor, patch)
  {
    Version(major, minor, patch, None, None)
  }

  datatype Error =
    | UnknownVersionPart(partName: string)  // UnknownVersionPartError
    | KeyError(key: string)                 // no attribute of that name

  /** What `getattr` finds on a version. */
  datatype Attribute =
    | Number(n: int)                // major, minor, patch
    | Text(text: Option<string>)    // release, original
    | ClassAttribute(name: string)  // a method, a class attribute or one inherited from `object`

  /** The part names, in the order iteration yields them. */
  const PartNames: seq<string> := ["major", "minor", "patch"]

  /** The names `getattr` finds on a version besides its data: the methods and class
      attributes of `Version`, and the attributes every instance inherits from
      `object` (as in CPython 3.8 to 3.10). */
  const ClassAttributes: set<string> := {
    "from_config", "bump_major", "bump_minor", "bump_patch", "bump", "UnknownVersionPartError",
    "__init__", "__getitem__", "__len__", "__iter__", "__repr__",
    "__class__", "__dict__", "__doc__", "__module__", "__weakref__",
    "__delattr__", "__dir__", "__eq__", "__format__", "__ge__", "__getattribute__", "__gt__",
    "__hash__", "__init_subclass__", "__le__", "__lt__", "__ne__", "__new__", "__reduce__",
    "__reduce_ex__", "__setattr__", "__sizeof__", "__str__", "__subclasshook__"}

  /** The names of the data a version holds: the properties and the fields behind them. */
  const DataNames: set<string> := {
    "major", "_major", "minor", "_minor", "patch", "_patch", "release", "_release", "original"}

  /** `__getitem__`: the attribute of that name, or KeyError. */
  function GetItem(v: Version, key: string): (r: Result<Attribute, Error>)
    ensures key == "major" || key == "_major" ==> r == Success(Number(v.major))
    ensures key == "minor" || key == "_minor" ==> r == Success(Number(v.minor))
    ensures key == "patch" || key == "_patch" ==> r == Success(Number(v.patch))
    ensures key == "release" || key == "_release" ==> r == Success(Text(v.release))
    ensures key == "original" ==> r == Success(Text(v.original))
    ensures r.Success? && r.value.ClassAttribute? ==> r.value.name == key && key in ClassAttributes
    ensures r.Failure? <==> key !in DataNames && key !in ClassAttributes
    ensures r.Failure? ==> r.error == KeyError(key)
  {
    if key == "major" || key == "_major" then Success(Number(v.major))
    else if key == "minor" || key == "_minor" then Success(Number(v.minor))
    else if key == "patch" || key == "_patch" then Success(Number(v.patch))
    else if key == "release" || key == "_release" then Success(Text(v.release))
    else if key == "original" then Success(Text(v.original))
    else if key in ClassAttributes then Success(ClassAttribute(key))
    else Failure(KeyError(key))
  }

  /** `__len__`. */
  function Length(v: Version): nat {
    3
  }

  /** `__iter__`: iterating the dict `{"major": …, "minor": …, "patch": …}` yields its
      keys in insertion order, as many as `len` says, and each looks up its number. */
  function Keys(v: Version): (r: seq<string>)
    ensures |r| == Length(v)
    ensures r == ["major", "minor", "patch"]
    ensures forall i :: 0 <= i < 3 ==> GetItem(v, r[i]) == Success(Number([v.major, v.minor, v.patch][i]))
    ensures forall i, j :: 0 <= i < j < |r| ==> r[i] != r[j]
  {
    PartNames
  }

  function BumpMajor(v: Version): Version {
    Make(v.major + 1, 0, 0)
  }

  function BumpMinor(v: Version): Version {
    Make(v.major, v.minor + 1, 0)
  }

  function BumpPatch(v: Version): Version {
    Make(v.major, v.minor, v.patch + 1)
  }

  /** `bump(part_name)`. */
  function Bump(v: Version, partName: string): Result<Version, Error> {
    if partName == "major" then Success(BumpMajor(v))
    else if partName == "minor" then Success(BumpMinor(v))
    else if partName == "patch" then Success(BumpPatch(v))
    else Failure(UnknownVersionPart(partName))
  }

  /** The number a part name looks up. */
  function PartValue(v: Version, i: nat): int
    requires i < 3
  {
    if i == 0 then v.major else if i == 1 then v.minor else v.patch
  }

  /** Bumping the part at position `i` of the part order adds one to it, keeps the parts
      before it, resets the parts after it to 0, and drops release and original; any
      other name is UnknownVersionPartError. */
  lemma BumpByOrder(v: Version, partName: string)
    ensures Bump(v, partName).Failure? <==> partName !in PartNames
    ensures Bump(v, partName).Failure? ==> Bump(v, partName).error == UnknownVersionPart(partName)
    ensures Bump(v, partName).Success? ==>
      var w := Bump(v, partName).value;
      && w.release == None && w.original == None
      && exists i :: 0 <= i < 3 && PartNames[i] == partName
           && PartValue(w, i) == PartValue(v, i) + 1
           && (forall j :: 0 <= j < i ==> PartValue(w, j) == PartValue(v, j))
           && (forall j :: i < j < 3 ==> PartValue(w, j) == 0)
  {
    if partName == "major" {
      assert PartNames[0] == partName;
    } else if partName == "minor" {
      assert PartNames[1] == partName;
    } else if partName == "patch" {
      assert PartNames[2] == partName;
    }
  }

  /** Version numbers in the order of their parts. */
  predicate Precedes(v: Version, w: Version) {
    v.major < w.major
    || (v.major == w.major && v.minor < w.minor)
    || (v.major == w.major && v.minor == w.minor && v.patch < w.patch)
  }

  /** A bump always moves the version forward. */
  lemma BumpMovesForward(v: Version, partName: string)
    requires Bump(v, partName).Success?
    ensures Precedes(v, Bump(v, partName).value)
  {
  }

  /** Bumping major on 4.2.8 gives 5.0.0. */
  lemma BumpMajorExample()
    ensures Bump(Make(4, 2, 8), "major") == Success(Make(5, 0, 0))
  {
  }
}

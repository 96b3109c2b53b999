/**
  The operations the back end takes from Rust's standard library and does not define itself.
  They are passed around as an uninterpreted record of functions, so nothing proved about the
  index depends on how hashing, Unicode lower-casing or path splitting behave.
 */
module Foreign {
  import opened Wrappers

  newtype U64 = x: int | 0 <= x < 0x1_0000_0000_0000_0000
  newtype U32 = x: int | 0 <= x < 0x1_0000_0000

  datatype Primitives = Primitives(
    /** `u64_hash`: `DefaultHasher` over the string. */
    hash: seq<char> -> U64,
    /** `str::to_lowercase`. */
    lower: seq<char> -> seq<char>,
    /** `Path::file_name`, `None` for a path that ends in `..` or is a root. */
    fileName: seq<char> -> Option<seq<char>>,
    /** `Path::parent` followed by `Path::file_name`: the name of the folder that holds the
        path, `None` when either step gives `None`. A relative path directly under the root,
        such as `foo.lisp`, has the empty parent, which has no file name. */
    folderName: seq<char> -> Option<seq<char>>
  )
}

/** Optional values and the result codes the operations return. */
module Results {

  datatype Option<T> = None | Some(value: T)

  datatype Status = Ok | BadArgs | NoMem | NoSpc | Busy | Inval | NotFound | Empty | HashFailed
}

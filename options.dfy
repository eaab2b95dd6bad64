// The optional value the graph model's lookups return: C++'s null pointers
// and std::optional, shared by the key parser, the tree and the model.

module Options {

  datatype Option<T> = None | Some(value: T)
}

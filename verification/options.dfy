/** An optional value: `None` stands for JavaScript's `null`/`undefined`
    where the page functions test an object for presence. */
module Options {

  datatype Option<+T> = None | Some(value: T)
}

/** The customer document shape of customerModel.js: three required fields,
    `name` and `email` strings and `age` a number. */
module CustomerModel {

  datatype Option<+T> = None | Some(value: T)

  /** One customer document as persisted (without the store's identifier). */
  datatype Customer = Customer(name: string, email: string, age: int)
}

/** Optional values and the failures the modelled code can raise. */
module Results {

  datatype Option<T> = None | Some(value: T)

  /** The exceptions the source lets escape, one constructor per cause. */
  datatype Fault =
    | EmptyInput     // `most_common(1)[0]` on an empty Counter: IndexError
    | MissingColumn  // `fila[atributo]` for a name that is not a column: KeyError
    | ShapeMismatch  // `pd.DataFrame(datos, columns=cabeceras)` with rows of another width

  datatype Result<T> = Ok(value: T) | Err(fault: Fault)
}

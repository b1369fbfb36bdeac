/** The participant document: the JSON body the registration form posts
    and the registration handler stores unchanged. The store-assigned
    document id is not part of the model. */
module Records {

  datatype Record = Record(name: string, usn: string, email: string, year: string, phone: string)
}
